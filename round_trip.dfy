/**
 * Writing a cookie with `fmt::Show` and reading the text back with
 * `Cookie::parse`. The two are not inverse in general: the text must be
 * splittable again (no `;` or stray `=` where the parser cuts, no
 * whitespace where it trims), a missing path comes back as `/`, and the
 * value of a custom attribute comes back percent-encoded, because `fmt`
 * encodes it and `parse` stores it without decoding.
 */
module RoundTrip {

  import opened Wrappers
  import opened Bytes
  import opened Utf8
  import opened Decimal
  import opened Percent
  import opened Time
  import opened Ordered
  import opened Cookies
  import opened ParseProperties

  // ------------------------------------------------------ conditions

  /** Text written as it is after `Name=`: no `;`, no whitespace at its end. */
  predicate PlainClean(v: Bytes) {
    ';' !in v && NoTrailingWhitespace(v)
  }

  /** A value whose percent-encoded form is plain-clean: every `;` in it is
      escaped, and so is a whitespace byte at its end. */
  predicate EncodesCleanly(escapes: EncodeSet, v: Bytes) {
    && (forall i :: 0 <= i < |v| && v[i] == ';' ==> escapes(v[i]))
    && (|v| > 0 && IsWhitespace(v[|v| - 1]) ==> escapes(v[|v| - 1]))
  }

  /** A name or a custom key: it is cut at the first `=` of a trimmed
      segment, so it holds no `=` and no `;` and does not start with
      whitespace. */
  predicate KeyClean(k: Bytes) {
    '=' !in k && ';' !in k && NoLeadingWhitespace(k)
  }

  /** The cookies whose text `parse` reads back field by field. The name and
      the value are Rust `String`s, hence valid UTF-8; the name is not
      encoded, so it must hold no `%`; every `%` of the value is escaped, so
      that decoding restores it. */
  predicate Writable(crates: Crates, c: Cookie) {
    var e := crates.defaultEncodeSet;
    && KeyClean(c.name) && '%' !in c.name && ValidUtf8(c.name)
    && EncodesCleanly(e, c.value) && ValidUtf8(c.value)
    && (forall i :: 0 <= i < |c.value| && c.value[i] == '%' ==> e(c.value[i]))
    && (c.path.Some? ==> PlainClean(c.path.value))
    && (c.domain.Some? ==>
          var d := c.domain.value;
          |d| > 0 && d[0] != '.' && ToAsciiLower(d) == d && PlainClean(d))
    && (c.expires.Some? ==>
          var t := c.expires.value;
          ParseExpires(crates.strptime, crates.rfc822(t)) == Some(t) && PlainClean(crates.rfc822(t)))
    && (forall k :: k in c.custom ==>
          KeyClean(k) && !IsRecognisedKey(ToAsciiLower(k)) && EncodesCleanly(e, c.custom[k]))
  }

  /** The custom attributes with their values percent-encoded. */
  function EncodedCustom(escapes: EncodeSet, m: map<Bytes, Bytes>): (r: map<Bytes, Bytes>)
    ensures r.Keys == m.Keys
  {
    map k | k in m :: Encode(escapes, m[k])
  }

  /** What reading the text of `c` back gives: `c` with a missing path
      replaced by `/` and its custom values percent-encoded. */
  function Reread(crates: Crates, c: Cookie): Cookie {
    c.(path := if c.path.Some? then c.path else Some("/"),
       custom := EncodedCustom(crates.defaultEncodeSet, c.custom))
  }

  // ------------------------------------------------------ text facts

  /** A value that encodes cleanly gives plain-clean text. */
  lemma EncodedClean(escapes: EncodeSet, v: Bytes)
    requires EncodesCleanly(escapes, v)
    ensures PlainClean(Encode(escapes, v))
  {
    var r := Encode(escapes, v);
    forall b | b in r ensures b != ';' {
      if b in v && !escapes(b) {
        var i :| 0 <= i < |v| && v[i] == b;
      }
    }
  }

  /** A segment `k=v` that trimming leaves alone is cut at its `=` and
      dispatched on `k`. */
  lemma KeyValueText(k: Bytes, v: Bytes)
    requires '=' !in k && NoLeadingWhitespace(k) && NoTrailingWhitespace(v)
    ensures SplitPair(k + "=" + v) == Some((k, v))
    ensures Classify(k + "=" + v) == ClassifyPair(k, v)
  {
    var a := k + "=" + v;
    assert a == k + ['='] + v;
    assert |k| > 0 ==> a[0] == k[0];
    assert |v| > 0 ==> a[|a| - 1] == v[|v| - 1];
    TrimNoop(a);
    SplitOnceOf(k, '=', v);
    ClassifySegment(a);
  }

  /** The space `fmt` writes after each `;` is trimmed away. */
  lemma SpacedClassify(x: Bytes)
    ensures Classify(" " + x) == Classify(x)
  {
    TrimSpaced(x);
  }

  lemma TrimSpaced(x: Bytes)
    ensures Trim(" " + x) == Trim(x)
  {
    assert " " + x == [' '] + x;
    TrimAfterWhitespace(' ', x);
  }

  /** The attribute texts as `split(';')` gives them back: each behind the
      space written after its `;`. */
  function Spaced(xs: seq<Bytes>): (r: seq<Bytes>)
    ensures |r| == |xs|
  {
    if |xs| == 0 then [] else [" " + xs[0]] + Spaced(xs[1..])
  }

  lemma {:induction false} SpacedAt(xs: seq<Bytes>)
    ensures forall i :: 0 <= i < |xs| ==> Spaced(xs)[i] == " " + xs[i]
    decreases |xs|
  {
    if |xs| > 0 {
      SpacedAt(xs[1..]);
    }
  }

  lemma SemicolonSpace(x: Bytes, rest: Bytes)
    ensures "; " + x + rest == [';'] + ((" " + x) + rest)
  {
  }

  lemma SplitWrittenStep(p: Bytes, xs: seq<Bytes>)
    requires ';' !in p && |xs| > 0
    ensures SplitOn(p + Attributes(xs), ';') == [p] + SplitOn((" " + xs[0]) + Attributes(xs[1..]), ';')
  {
    AttributesUnfold(xs);
    SemicolonSpace(xs[0], Attributes(xs[1..]));
    assert p + Attributes(xs) == p + [';'] + ((" " + xs[0]) + Attributes(xs[1..]));
    SplitOnJoin(p, ';', (" " + xs[0]) + Attributes(xs[1..]));
  }

  lemma SpacedNoSemicolon(x: Bytes)
    requires ';' !in x
    ensures ';' !in " " + x
  {
    assert forall j :: 0 <= j < |" " + x| ==> (" " + x)[j] == ' ' || (" " + x)[j] == x[j - 1];
  }

  lemma SemicolonFreeTail(xs: seq<Bytes>)
    requires |xs| > 0
    requires forall i :: 0 <= i < |xs| ==> ';' !in xs[i]
    ensures forall i :: 0 <= i < |xs[1..]| ==> ';' !in xs[1..][i]
  {
    assert forall i :: 0 <= i < |xs[1..]| ==> xs[1..][i] == xs[i + 1];
  }

  /** Cutting the written text at `;` gives the pair and the spaced
      attribute texts. */
  lemma {:induction false} SplitWritten(p: Bytes, xs: seq<Bytes>)
    requires ';' !in p
    requires forall i :: 0 <= i < |xs| ==> ';' !in xs[i]
    ensures SplitOn(p + Attributes(xs), ';') == [p] + Spaced(xs)
    decreases |xs|
  {
    if |xs| == 0 {
      assert p + Attributes(xs) == p;
      SplitOnNone(p, ';');
    } else {
      var head := " " + xs[0];
      var rest := xs[1..];
      SpacedNoSemicolon(xs[0]);
      SemicolonFreeTail(xs);
      SplitWritten(head, rest);
      SplitWrittenStep(p, xs);
      assert Spaced(xs) == [head] + Spaced(rest);
    }
  }

  /** The written text ends in what its last attribute (or the pair) ends in. */
  lemma {:induction false} WrittenEnds(p: Bytes, xs: seq<Bytes>)
    requires |p| > 0 && NoTrailingWhitespace(p)
    requires forall i :: 0 <= i < |xs| ==> |xs[i]| > 0 && NoTrailingWhitespace(xs[i])
    ensures NoTrailingWhitespace(p + Attributes(xs))
    decreases |xs|
  {
    if |xs| > 0 {
      var q := p + "; " + xs[0];
      assert p + Attributes(xs) == q + Attributes(xs[1..]);
      assert q[|q| - 1] == xs[0][|xs[0]| - 1];
      assert forall i :: 0 <= i < |xs[1..]| ==> xs[1..][i] == xs[i + 1];
      WrittenEnds(q, xs[1..]);
    }
  }

  // ------------------------------------------------------ kinds of the texts

  lemma KindsOfSpaced(xs: seq<Bytes>)
    ensures Kinds(Spaced(xs)) == Kinds(xs)
  {
    SpacedAt(xs);
    forall i | 0 <= i < |xs| ensures Kinds(Spaced(xs))[i] == Kinds(xs)[i] {
      SpacedClassify(xs[i]);
    }
  }

  /** How a custom attribute is read back. */
  function CustomKinds(escapes: EncodeSet, m: map<Bytes, Bytes>, keys: seq<Bytes>): (r: seq<Attr>)
    requires forall i :: 0 <= i < |keys| ==> keys[i] in m
    ensures |r| == |keys|
  {
    seq(|keys|, i requires 0 <= i < |keys| => CustomAttr(keys[i], Encode(escapes, m[keys[i]])))
  }

  lemma KindsOfCustom(escapes: EncodeSet, m: map<Bytes, Bytes>, keys: seq<Bytes>)
    requires forall i :: 0 <= i < |keys| ==> keys[i] in m
    requires forall k :: k in m ==> KeyClean(k) && !IsRecognisedKey(ToAsciiLower(k)) && EncodesCleanly(escapes, m[k])
    ensures Kinds(CustomTexts(escapes, m, keys)) == CustomKinds(escapes, m, keys)
    ensures forall i :: 0 <= i < |keys| ==> |CustomTexts(escapes, m, keys)[i]| > 0 && PlainClean(CustomTexts(escapes, m, keys)[i])
  {
    var xs := CustomTexts(escapes, m, keys);
    forall i | 0 <= i < |keys|
      ensures Kinds(xs)[i] == CustomKinds(escapes, m, keys)[i]
      ensures |xs[i]| > 0 && PlainClean(xs[i])
    {
      var k: Bytes := keys[i];
      var v := Encode(escapes, m[k]);
      EncodedClean(escapes, m[k]);
      KeyValueText(k, v);
      ClassifyPairKinds(k, v);
      assert xs[i] == k + "=" + v;
      assert |v| > 0 ==> xs[i][|xs[i]| - 1] == v[|v| - 1];
    }
  }

  lemma LowerHttpOnly()
    ensures ToAsciiLower(HTTPONLY_TEXT) == HTTPONLY
  {
    ToAsciiLowerAt(HTTPONLY_TEXT);
  }

  lemma LowerSecure()
    ensures ToAsciiLower(SECURE_TEXT) == SECURE
  {
    ToAsciiLowerAt(SECURE_TEXT);
  }

  /** A segment that trimming leaves alone and that lowers to a flag name
      is that flag. */
  lemma FlagClassified(text: Bytes, a: Attr)
    requires Trim(text) == text
    requires (ToAsciiLower(text) == HTTPONLY && a == HttpOnlyAttr) || (ToAsciiLower(text) == SECURE && a == SecureAttr)
    ensures Classify(text) == a
  {
    ClassifySegment(text);
  }

  /** A word with no whitespace at either end and no `;` is left alone by
      trimming and is plain-clean. */
  lemma PlainWord(t: Bytes)
    requires |t| > 0 && !IsWhitespace(t[0]) && !IsWhitespace(t[|t| - 1]) && ';' !in t
    ensures Trim(t) == t && PlainClean(t)
  {
    TrimNoop(t);
  }

  /** Every text of a list is a nonempty plain-clean attribute text. */
  predicate AllClean(xs: seq<Bytes>) {
    forall i :: 0 <= i < |xs| ==> |xs[i]| > 0 && PlainClean(xs[i])
  }

  lemma KindsOfFlag(on: bool, text: Bytes, a: Attr)
    requires Classify(text) == a && |text| > 0 && PlainClean(text)
    ensures Kinds(FlagText(on, text)) == FlagKinds(on, a)
    ensures AllClean(FlagText(on, text))
  {
    if on {
      assert Kinds([text])[0] == a;
    }
  }

  /** A field written as `Name=v` is read back as the pair `(Name, v)`. */
  lemma KindsOfField(name: Bytes, text: Bytes, v: Option<Bytes>)
    requires text == name + "="
    requires '=' !in name && ';' !in name && |name| > 0 && !IsWhitespace(name[0])
    requires v.Some? ==> PlainClean(v.value)
    ensures Kinds(FieldText(text, v)) == (match v case Some(x) => [ClassifyPair(name, x)] case None => [])
    ensures AllClean(FieldText(text, v))
  {
    if v.Some? {
      var x := v.value;
      assert text + x == name + "=" + x;
      KeyValueText(name, x);
      assert Kinds([text + x])[0] == ClassifyPair(name, x);
      assert |x| > 0 ==> (text + x)[|text + x| - 1] == x[|x| - 1];
    }
  }

  lemma PathPair(v: Bytes)
    ensures ClassifyPair("Path", v) == PathAttr(v)
  {
    assert ToAsciiLower("Path") == PATH;
    ClassifyPairKinds("Path", v);
  }

  lemma DomainPair(v: Bytes)
    ensures ClassifyPair("Domain", v) == DomainAttr(v)
  {
    assert ToAsciiLower("Domain") == DOMAIN;
    ClassifyPairKinds("Domain", v);
  }

  lemma MaxAgePair(v: Bytes)
    ensures ClassifyPair("Max-Age", v) == MaxAgeAttr(v)
  {
    assert ToAsciiLower("Max-Age") == MAX_AGE;
    ClassifyPairKinds("Max-Age", v);
  }

  lemma ExpiresPair(v: Bytes)
    ensures ClassifyPair("Expires", v) == ExpiresAttr(v)
  {
    assert ToAsciiLower("Expires") == EXPIRES;
    ClassifyPairKinds("Expires", v);
  }

  lemma KindsAppend3(a: seq<Bytes>, b: seq<Bytes>, c: seq<Bytes>)
    ensures Kinds(a + b + c) == Kinds(a) + Kinds(b) + Kinds(c)
  {
    KindsAppend(a, b);
    KindsAppend(a + b, c);
  }

  lemma AllClean3(a: seq<Bytes>, b: seq<Bytes>, c: seq<Bytes>)
    requires AllClean(a) && AllClean(b) && AllClean(c)
    ensures AllClean(a + b + c)
  {
    assert forall i :: 0 <= i < |a + b + c| ==> (a + b + c)[i] in a + b + c;
  }

  // ------------------------------------------------------ kinds of what is written

  function FlagKinds(on: bool, a: Attr): seq<Attr> {
    if on then [a] else []
  }

  function PathKinds(v: Option<Bytes>): seq<Attr> {
    match v
    case Some(v) => [PathAttr(v)]
    case None => []
  }

  function DomainKinds(v: Option<Bytes>): seq<Attr> {
    match v
    case Some(v) => [DomainAttr(v)]
    case None => []
  }

  function MaxAgeKinds(n: Option<U64>): seq<Attr> {
    match n
    case Some(n) => [MaxAgeAttr(Render(n))]
    case None => []
  }

  function ExpiresKinds(rfc822: Rfc822, t: Option<Tm>): seq<Attr> {
    match t
    case Some(t) => [ExpiresAttr(rfc822(t))]
    case None => []
  }

  /** The kinds `parse` reads from the flags and the path `fmt` writes. */
  function FrontKinds(c: Cookie): seq<Attr> {
    FlagKinds(c.httponly, HttpOnlyAttr) + FlagKinds(c.secure, SecureAttr) + PathKinds(c.path)
  }

  /** The kinds `parse` reads from the domain, max-age and expiry `fmt` writes. */
  function BackKinds(crates: Crates, c: Cookie): seq<Attr> {
    DomainKinds(c.domain) + MaxAgeKinds(c.maxAge) + ExpiresKinds(crates.rfc822, c.expires)
  }

  /** The kinds `parse` reads from the flags and named fields `fmt` writes. */
  function FieldKinds(crates: Crates, c: Cookie): seq<Attr> {
    FrontKinds(c) + BackKinds(crates, c)
  }

  /** The kinds `parse` reads from all the attribute texts of `c`. */
  function WrittenKinds(crates: Crates, c: Cookie): seq<Attr>
  {
    var keys := Ascending(c.custom.Keys);
    assert forall i :: 0 <= i < |keys| ==> keys[i] in c.custom;
    FieldKinds(crates, c) + CustomKinds(crates.defaultEncodeSet, c.custom, keys)
  }

  lemma DigitsClean(r: Bytes)
    requires |r| > 0 && AllDigits(r)
    ensures PlainClean(r)
  {
    assert IsDigit(r[|r| - 1]);
    forall b | b in r ensures b != ';' {
      var i :| 0 <= i < |r| && r[i] == b;
      assert IsDigit(r[i]);
    }
  }

  /** `fmt` writes a flag as its name, which trimming leaves alone and
      which lowers to the name `parse` looks for. */
  lemma KindsOfHttpOnly(on: bool)
    ensures Kinds(FlagText(on, HTTPONLY_TEXT)) == FlagKinds(on, HttpOnlyAttr)
    ensures AllClean(FlagText(on, HTTPONLY_TEXT))
  {
    PlainWord(HTTPONLY_TEXT);
    LowerHttpOnly();
    FlagClassified(HTTPONLY_TEXT, HttpOnlyAttr);
    KindsOfFlag(on, HTTPONLY_TEXT, HttpOnlyAttr);
  }

  lemma KindsOfSecure(on: bool)
    ensures Kinds(FlagText(on, SECURE_TEXT)) == FlagKinds(on, SecureAttr)
    ensures AllClean(FlagText(on, SECURE_TEXT))
  {
    PlainWord(SECURE_TEXT);
    LowerSecure();
    FlagClassified(SECURE_TEXT, SecureAttr);
    KindsOfFlag(on, SECURE_TEXT, SecureAttr);
  }

  lemma KindsOfFlags(c: Cookie)
    ensures Kinds(FlagText(c.httponly, HTTPONLY_TEXT)) == FlagKinds(c.httponly, HttpOnlyAttr)
    ensures Kinds(FlagText(c.secure, SECURE_TEXT)) == FlagKinds(c.secure, SecureAttr)
    ensures AllClean(FlagText(c.httponly, HTTPONLY_TEXT)) && AllClean(FlagText(c.secure, SECURE_TEXT))
  {
    KindsOfHttpOnly(c.httponly);
    KindsOfSecure(c.secure);
  }

  lemma KindsOfPath(v: Option<Bytes>)
    requires v.Some? ==> PlainClean(v.value)
    ensures Kinds(FieldText(PATH_TEXT, v)) == PathKinds(v)
    ensures AllClean(FieldText(PATH_TEXT, v))
  {
    KindsOfField("Path", PATH_TEXT, v);
    if v.Some? { PathPair(v.value); }
  }

  lemma KindsOfDomain(v: Option<Bytes>)
    requires v.Some? ==> PlainClean(v.value)
    ensures Kinds(FieldText(DOMAIN_TEXT, v)) == DomainKinds(v)
    ensures AllClean(FieldText(DOMAIN_TEXT, v))
  {
    KindsOfField("Domain", DOMAIN_TEXT, v);
    if v.Some? { DomainPair(v.value); }
  }

  lemma KindsOfMaxAge(n: Option<U64>)
    ensures Kinds(FieldText(MAX_AGE_TEXT, MaxAgeValue(n))) == MaxAgeKinds(n)
    ensures AllClean(FieldText(MAX_AGE_TEXT, MaxAgeValue(n)))
  {
    if n.Some? { DigitsClean(Render(n.value)); }
    KindsOfField("Max-Age", MAX_AGE_TEXT, MaxAgeValue(n));
    if n.Some? { MaxAgePair(Render(n.value)); }
  }

  lemma KindsOfExpires(rfc822: Rfc822, t: Option<Tm>)
    requires t.Some? ==> PlainClean(rfc822(t.value))
    ensures Kinds(FieldText(EXPIRES_TEXT, ExpiresValue(rfc822, t))) == ExpiresKinds(rfc822, t)
    ensures AllClean(FieldText(EXPIRES_TEXT, ExpiresValue(rfc822, t)))
  {
    KindsOfField("Expires", EXPIRES_TEXT, ExpiresValue(rfc822, t));
    if t.Some? { ExpiresPair(rfc822(t.value)); }
  }

  lemma KindsOfCustoms(escapes: EncodeSet, m: map<Bytes, Bytes>, keys: seq<Bytes>)
    requires forall i :: 0 <= i < |keys| ==> keys[i] in m
    requires forall k :: k in m ==> KeyClean(k) && !IsRecognisedKey(ToAsciiLower(k)) && EncodesCleanly(escapes, m[k])
    ensures Kinds(CustomTexts(escapes, m, keys)) == CustomKinds(escapes, m, keys)
    ensures AllClean(CustomTexts(escapes, m, keys))
  {
    KindsOfCustom(escapes, m, keys);
  }

  /** The flags and the path as `fmt` writes them. */
  function FrontTexts(c: Cookie): seq<Bytes> {
    FlagText(c.httponly, HTTPONLY_TEXT) + FlagText(c.secure, SECURE_TEXT) + FieldText(PATH_TEXT, c.path)
  }

  /** The domain, max-age and expiry as `fmt` writes them. */
  function BackTexts(crates: Crates, c: Cookie): seq<Bytes> {
    FieldText(DOMAIN_TEXT, c.domain) + FieldText(MAX_AGE_TEXT, MaxAgeValue(c.maxAge))
    + FieldText(EXPIRES_TEXT, ExpiresValue(crates.rfc822, c.expires))
  }

  lemma KindsOfFront(c: Cookie)
    requires c.path.Some? ==> PlainClean(c.path.value)
    ensures Kinds(FrontTexts(c)) == FrontKinds(c) && AllClean(FrontTexts(c))
  {
    var h := FlagText(c.httponly, HTTPONLY_TEXT);
    var s := FlagText(c.secure, SECURE_TEXT);
    var p := FieldText(PATH_TEXT, c.path);
    KindsAppend3(h, s, p);
    KindsOfFlags(c);
    KindsOfPath(c.path);
    AllClean3(h, s, p);
  }

  lemma KindsOfBack(crates: Crates, c: Cookie)
    requires c.domain.Some? ==> PlainClean(c.domain.value)
    requires c.expires.Some? ==> PlainClean(crates.rfc822(c.expires.value))
    ensures Kinds(BackTexts(crates, c)) == BackKinds(crates, c) && AllClean(BackTexts(crates, c))
  {
    var d := FieldText(DOMAIN_TEXT, c.domain);
    var m := FieldText(MAX_AGE_TEXT, MaxAgeValue(c.maxAge));
    var x := FieldText(EXPIRES_TEXT, ExpiresValue(crates.rfc822, c.expires));
    KindsAppend3(d, m, x);
    KindsOfDomain(c.domain);
    KindsOfMaxAge(c.maxAge);
    KindsOfExpires(crates.rfc822, c.expires);
    AllClean3(d, m, x);
  }

  lemma AttributeTextsParts(crates: Crates, c: Cookie)
    ensures forall i :: 0 <= i < |Ascending(c.custom.Keys)| ==> Ascending(c.custom.Keys)[i] in c.custom
    ensures AttributeTexts(crates, c) ==
            FrontTexts(c) + BackTexts(crates, c)
            + CustomTexts(crates.defaultEncodeSet, c.custom, Ascending(c.custom.Keys))
  {
    var keys := Ascending(c.custom.Keys);
    assert forall i :: 0 <= i < |keys| ==> keys[i] in c.custom;
  }

  lemma {:induction false} KindsOfWritten(crates: Crates, c: Cookie)
    requires Writable(crates, c)
    ensures Kinds(AttributeTexts(crates, c)) == WrittenKinds(crates, c)
    ensures AllClean(AttributeTexts(crates, c))
  {
    var e := crates.defaultEncodeSet;
    var keys := Ascending(c.custom.Keys);
    AttributeTextsParts(crates, c);
    var f := FrontTexts(c);
    var b := BackTexts(crates, c);
    var cu := CustomTexts(e, c.custom, keys);
    KindsAppend3(f, b, cu);
    KindsOfFront(c);
    KindsOfBack(crates, c);
    KindsOfCustoms(e, c.custom, keys);
    AllClean3(f, b, cu);
  }

  // ------------------------------------------------------ applying the kinds

  lemma ApplyOne(crates: Crates, d: Cookie, a: Attr)
    ensures ApplyAll(crates, d, [a]) == Apply(crates, d, a)
  {
    assert [a][..0] == [];
  }

  /** Once a prefix of the attributes has succeeded, the rest continue
      from its cookie. */
  lemma ApplyAllThen(crates: Crates, c: Cookie, xs: seq<Attr>, ys: seq<Attr>, d: Cookie)
    requires ApplyAll(crates, c, xs) == Success(d)
    ensures ApplyAll(crates, c, xs + ys) == ApplyAll(crates, d, ys)
  {
    ApplyAllAppend(crates, c, xs, ys);
  }

  lemma ApplyFlag(crates: Crates, d: Cookie, on: bool, a: Attr)
    requires a == HttpOnlyAttr || a == SecureAttr
    ensures ApplyAll(crates, d, FlagKinds(on, a)) == Success(if on then Apply(crates, d, a).value else d)
  {
    ApplyOne(crates, d, a);
  }

  lemma ApplyPath(crates: Crates, d: Cookie, v: Option<Bytes>)
    ensures ApplyAll(crates, d, PathKinds(v)) == Success(if v.Some? then d.(path := v) else d)
  {
    if v.Some? { ApplyOne(crates, d, PathAttr(v.value)); }
  }

  lemma ApplyDomain(crates: Crates, d: Cookie, v: Option<Bytes>)
    requires v.Some? ==> |v.value| > 0 && v.value[0] != '.' && ToAsciiLower(v.value) == v.value
    ensures ApplyAll(crates, d, DomainKinds(v)) == Success(if v.Some? then d.(domain := v) else d)
  {
    if v.Some? { ApplyOne(crates, d, DomainAttr(v.value)); }
  }

  lemma ApplyMaxAge(crates: Crates, d: Cookie, n: Option<U64>)
    ensures ApplyAll(crates, d, MaxAgeKinds(n)) == Success(if n.Some? then d.(maxAge := n) else d)
  {
    if n.Some? {
      ParseRender(n.value);
      ApplyOne(crates, d, MaxAgeAttr(Render(n.value)));
    }
  }

  lemma ApplyExpires(crates: Crates, d: Cookie, t: Option<Tm>)
    requires t.Some? ==> ParseExpires(crates.strptime, crates.rfc822(t.value)) == t
    ensures ApplyAll(crates, d, ExpiresKinds(crates.rfc822, t)) == Success(if t.Some? then d.(expires := t) else d)
  {
    if t.Some? { ApplyOne(crates, d, ExpiresAttr(crates.rfc822(t.value))); }
  }

  /** `d` with the flags and the path of `c` that `fmt` writes. */
  function WithFront(c: Cookie, d: Cookie): Cookie {
    d.(httponly := d.httponly || c.httponly,
       secure := d.secure || c.secure,
       path := if c.path.Some? then c.path else d.path)
  }

  /** `d` with the domain, max-age and expiry of `c` that `fmt` writes. */
  function WithBack(c: Cookie, d: Cookie): Cookie {
    d.(domain := if c.domain.Some? then c.domain else d.domain,
       maxAge := if c.maxAge.Some? then c.maxAge else d.maxAge,
       expires := if c.expires.Some? then c.expires else d.expires)
  }

  lemma ApplyFront(crates: Crates, c: Cookie, d: Cookie)
    ensures ApplyAll(crates, d, FrontKinds(c)) == Success(WithFront(c, d))
  {
    var k1 := FlagKinds(c.httponly, HttpOnlyAttr);
    var k2 := FlagKinds(c.secure, SecureAttr);
    var d1 := if c.httponly then d.(httponly := true) else d;
    var d2 := if c.secure then d1.(secure := true) else d1;
    ApplyFlag(crates, d, c.httponly, HttpOnlyAttr);
    ApplyFlag(crates, d1, c.secure, SecureAttr);
    ApplyPath(crates, d2, c.path);
    ApplyAllThen(crates, d, k1, k2, d1);
    ApplyAllThen(crates, d, k1 + k2, PathKinds(c.path), d2);
  }

  lemma ApplyBack(crates: Crates, c: Cookie, d: Cookie)
    requires c.domain.Some? ==> |c.domain.value| > 0 && c.domain.value[0] != '.' && ToAsciiLower(c.domain.value) == c.domain.value
    requires c.expires.Some? ==> ParseExpires(crates.strptime, crates.rfc822(c.expires.value)) == c.expires
    ensures ApplyAll(crates, d, BackKinds(crates, c)) == Success(WithBack(c, d))
  {
    var k4 := DomainKinds(c.domain);
    var k5 := MaxAgeKinds(c.maxAge);
    var d4 := if c.domain.Some? then d.(domain := c.domain) else d;
    var d5 := if c.maxAge.Some? then d4.(maxAge := c.maxAge) else d4;
    ApplyDomain(crates, d, c.domain);
    ApplyMaxAge(crates, d4, c.maxAge);
    ApplyExpires(crates, d5, c.expires);
    ApplyAllThen(crates, d, k4, k5, d4);
    ApplyAllThen(crates, d, k4 + k5, ExpiresKinds(crates.rfc822, c.expires), d5);
  }

  /** `base` with the custom attributes of `keys` stored in turn, each
      percent-encoded. */
  function Overlay(base: map<Bytes, Bytes>, escapes: EncodeSet, m: map<Bytes, Bytes>, keys: seq<Bytes>): map<Bytes, Bytes>
    requires forall i :: 0 <= i < |keys| ==> keys[i] in m
    decreases |keys|
  {
    if |keys| == 0 then base
    else
      var k := keys[|keys| - 1];
      Overlay(base, escapes, m, keys[..|keys| - 1])[k := Encode(escapes, m[k])]
  }

  lemma CustomKindsPrefix(escapes: EncodeSet, m: map<Bytes, Bytes>, keys: seq<Bytes>, n: nat)
    requires forall i :: 0 <= i < |keys| ==> keys[i] in m
    requires n <= |keys|
    ensures forall i :: 0 <= i < |keys[..n]| ==> keys[..n][i] in m
    ensures CustomKinds(escapes, m, keys)[..n] == CustomKinds(escapes, m, keys[..n])
  {
    var ks := CustomKinds(escapes, m, keys);
    assert forall i :: 0 <= i < |keys[..n]| ==> keys[..n][i] == keys[i];
    assert forall i :: 0 <= i < n ==> ks[..n][i] == CustomKinds(escapes, m, keys[..n])[i];
  }

  lemma ApplyAllLast(crates: Crates, c: Cookie, kinds: seq<Attr>, d: Cookie, a: Attr)
    requires |kinds| > 0 && kinds[|kinds| - 1] == a
    requires ApplyAll(crates, c, kinds[..|kinds| - 1]) == Success(d)
    ensures ApplyAll(crates, c, kinds) == Apply(crates, d, a)
  {
  }

  lemma OverlayLast(base: map<Bytes, Bytes>, escapes: EncodeSet, m: map<Bytes, Bytes>, keys: seq<Bytes>)
    requires forall i :: 0 <= i < |keys| ==> keys[i] in m
    requires |keys| > 0
    ensures Overlay(base, escapes, m, keys) ==
            Overlay(base, escapes, m, keys[..|keys| - 1])[keys[|keys| - 1] := Encode(escapes, m[keys[|keys| - 1]])]
  {
  }

  lemma ApplyCustom(crates: Crates, d: Cookie, k: Bytes, v: Bytes)
    ensures Apply(crates, d, CustomAttr(k, v)) == Success(d.(custom := d.custom[k := v]))
  {
  }

  lemma {:induction false} ApplyCustoms(crates: Crates, d: Cookie, m: map<Bytes, Bytes>, keys: seq<Bytes>)
    requires forall i :: 0 <= i < |keys| ==> keys[i] in m
    ensures ApplyAll(crates, d, CustomKinds(crates.defaultEncodeSet, m, keys)) ==
            Success(d.(custom := Overlay(d.custom, crates.defaultEncodeSet, m, keys)))
    decreases |keys|
  {
    var e := crates.defaultEncodeSet;
    if |keys| > 0 {
      var n := |keys| - 1;
      var ks := CustomKinds(e, m, keys);
      var k: Bytes := keys[n];
      var v := Encode(e, m[k]);
      CustomKindsPrefix(e, m, keys, n);
      ApplyCustoms(crates, d, m, keys[..n]);
      var before := d.(custom := Overlay(d.custom, e, m, keys[..n]));
      assert ks[n] == CustomAttr(k, v);
      ApplyCustom(crates, before, k, v);
      ApplyAllLast(crates, d, ks, before, CustomAttr(k, v));
      OverlayLast(d.custom, e, m, keys);
    }
  }

  lemma InFrontOrLast(keys: seq<Bytes>)
    requires |keys| > 0
    ensures forall k :: k in keys <==> k in keys[..|keys| - 1] || k == keys[|keys| - 1]
  {
    assert keys == keys[..|keys| - 1] + [keys[|keys| - 1]];
  }

  /** Storing every key of `keys` from nothing gives each its encoded value. */
  lemma {:induction false} OverlayAll(escapes: EncodeSet, m: map<Bytes, Bytes>, keys: seq<Bytes>)
    requires forall i :: 0 <= i < |keys| ==> keys[i] in m
    ensures forall k :: k in Overlay(map[], escapes, m, keys) <==> k in keys
    ensures forall k :: k in Overlay(map[], escapes, m, keys) ==> Overlay(map[], escapes, m, keys)[k] == Encode(escapes, m[k])
    decreases |keys|
  {
    if |keys| > 0 {
      var n := |keys| - 1;
      var front := keys[..n];
      var last := keys[n];
      CustomKindsPrefix(escapes, m, keys, n);
      OverlayAll(escapes, m, front);
      OverlayLast(map[], escapes, m, keys);
      InFrontOrLast(keys);
    }
  }

  lemma MapsEqual(o: map<Bytes, Bytes>, r: map<Bytes, Bytes>)
    requires forall k :: k in o <==> k in r
    requires forall k :: k in o ==> o[k] == r[k]
    ensures o == r
  {
  }

  /** Storing the custom keys in ascending order gives the encoded map. */
  lemma OverlayAscending(escapes: EncodeSet, m: map<Bytes, Bytes>)
    ensures forall i :: 0 <= i < |Ascending(m.Keys)| ==> Ascending(m.Keys)[i] in m
    ensures Overlay(map[], escapes, m, Ascending(m.Keys)) == EncodedCustom(escapes, m)
  {
    var keys := Ascending(m.Keys);
    assert forall i :: 0 <= i < |keys| ==> keys[i] in m;
    OverlayAll(escapes, m, keys);
    MapsEqual(Overlay(map[], escapes, m, keys), EncodedCustom(escapes, m));
  }

  /** Reading the fields back over the cookie of the pair gives `Reread`. */
  lemma RereadFields(crates: Crates, c: Cookie)
    ensures WithBack(c, WithFront(c, New(c.name, c.value))).(custom := EncodedCustom(crates.defaultEncodeSet, c.custom))
            == Reread(crates, c)
  {
  }

  /** The attributes `fmt` writes rebuild, from the cookie of the pair, the
      cookie `Reread` describes. */
  lemma ApplyWritten(crates: Crates, c: Cookie)
    requires c.domain.Some? ==> |c.domain.value| > 0 && c.domain.value[0] != '.' && ToAsciiLower(c.domain.value) == c.domain.value
    requires c.expires.Some? ==> ParseExpires(crates.strptime, crates.rfc822(c.expires.value)) == c.expires
    ensures ApplyAll(crates, New(c.name, c.value), WrittenKinds(crates, c)) == Success(Reread(crates, c))
  {
    var e := crates.defaultEncodeSet;
    var keys := Ascending(c.custom.Keys);
    OverlayAscending(e, c.custom);
    var d0 := New(c.name, c.value);
    var d3 := WithFront(c, d0);
    var d6 := WithBack(c, d3);
    ApplyFront(crates, c, d0);
    ApplyBack(crates, c, d3);
    ApplyAllThen(crates, d0, FrontKinds(c), BackKinds(crates, c), d3);
    ApplyCustoms(crates, d6, c.custom, keys);
    ApplyAllThen(crates, d0, FieldKinds(crates, c), CustomKinds(e, c.custom, keys), d6);
    RereadFields(crates, c);
  }

  // ------------------------------------------------------ the round trip

  /** `Cookie::pair` as `fmt::Show` writes it: a value with no byte to
      escape is written as it is after the name and `=`. */
  lemma PairShow(escapes: EncodeSet, c: Cookie)
    requires forall i :: 0 <= i < |c.value| ==> !escapes(c.value[i])
    ensures Pair(c).Show(escapes) == c.name + "=" + c.value
  {
    EncodeUnescaped(escapes, c.value);
  }

  lemma PairText(n: Bytes, v: Bytes)
    requires KeyClean(n) && PlainClean(v)
    ensures var p := n + "=" + v;
            |p| > 0 && ';' !in p && NoLeadingWhitespace(p) && NoTrailingWhitespace(p)
  {
    var p := n + "=" + v;
    assert p == n + ['='] + v;
    assert |n| > 0 ==> p[0] == n[0];
    assert |n| == 0 ==> p[0] == '=';
    assert |v| > 0 ==> p[|p| - 1] == v[|v| - 1];
    forall b | b in p ensures b != ';' {
      assert b in n || b == '=' || b in v;
    }
  }

  lemma CleanSemicolonFree(xs: seq<Bytes>)
    requires AllClean(xs)
    ensures forall i :: 0 <= i < |xs| ==> ';' !in xs[i]
  {
  }

  /** The text of a pair `n=v` followed by attribute texts is parsed as
      the cookie of the decoded pair with those attributes applied. */
  lemma ParsedText(crates: Crates, n: Bytes, v: Bytes, xs: seq<Bytes>)
    requires KeyClean(n) && PlainClean(v) && AllClean(xs)
    requires ValidUtf8(Decode(n)) && ValidUtf8(Decode(v))
    ensures Parsed(crates, n + "=" + v + Attributes(xs)) ==
            ApplyAll(crates, New(Decode(n), Decode(v)), Kinds(xs))
  {
    var p := n + "=" + v;
    var s := p + Attributes(xs);
    PairText(n, v);
    WrittenEnds(p, xs);
    assert s[0] == p[0];
    TrimNoop(s);
    CleanSemicolonFree(xs);
    SplitWritten(p, xs);
    KeyValueText(n, v);
    KindsOfSpaced(xs);
    var pairs := SplitOn(Trim(s), ';');
    assert pairs[0] == p;
    assert pairs[1..] == Spaced(xs);
  }

  /** Reading back what `fmt` writes: for a writable cookie, `parse` of its
      text gives the cookie again, with a missing path read as `/` and the
      custom values in their encoded form. */
  lemma FormatThenParse(crates: Crates, c: Cookie)
    requires Writable(crates, c)
    ensures Parsed(crates, Format(crates, c)) == Success(Reread(crates, c))
  {
    var e := crates.defaultEncodeSet;
    var v := Encode(e, c.value);
    var xs := AttributeTexts(crates, c);
    assert Format(crates, c) == c.name + "=" + v + Attributes(xs);
    EncodedClean(e, c.value);
    KindsOfWritten(crates, c);
    DecodeWithoutPercent(c.name);
    DecodeEncode(e, c.value);
    ParsedText(crates, c.name, v, xs);
    ApplyWritten(crates, c);
  }

  /** No byte of any custom value is escaped, so `fmt` writes them as they are. */
  predicate CustomUnescaped(escapes: EncodeSet, m: map<Bytes, Bytes>) {
    forall k :: k in m ==> forall i :: 0 <= i < |m[k]| ==> !escapes(m[k][i])
  }

  lemma EncodedCustomUnescaped(escapes: EncodeSet, m: map<Bytes, Bytes>)
    requires CustomUnescaped(escapes, m)
    ensures EncodedCustom(escapes, m) == m
  {
    forall k | k in m ensures EncodedCustom(escapes, m)[k] == m[k] {
      EncodeUnescaped(escapes, m[k]);
    }
    MapsEqual(EncodedCustom(escapes, m), m);
  }

  /** The round trip without loss: a writable cookie with a path and with
      custom values that need no escaping is read back exactly. */
  lemma FormatParseRoundTrip(crates: Crates, c: Cookie)
    requires Writable(crates, c)
    requires c.path.Some?
    requires CustomUnescaped(crates.defaultEncodeSet, c.custom)
    ensures Parsed(crates, Format(crates, c)) == Success(c)
  {
    FormatThenParse(crates, c);
    EncodedCustomUnescaped(crates.defaultEncodeSet, c.custom);
  }

  /** A cookie without a path is read back with the default path `/`. */
  lemma FormatWithoutPath(crates: Crates, c: Cookie)
    requires Writable(crates, c)
    requires c.path.None?
    requires CustomUnescaped(crates.defaultEncodeSet, c.custom)
    ensures Parsed(crates, Format(crates, c)) == Success(c.(path := Some("/")))
  {
    FormatThenParse(crates, c);
    EncodedCustomUnescaped(crates.defaultEncodeSet, c.custom);
  }
}
