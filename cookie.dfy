/**
 * The `Cookie` value and its text codec: `Cookie::new`, `Cookie::parse`
 * with its nested `split`, `Cookie::pair`, and the `fmt::Show` impls of
 * `AttrVal` and `Cookie`.
 */
module Cookies {

  import opened Wrappers
  import opened Bytes
  import opened Utf8
  import opened Decimal
  import opened Percent
  import opened Time
  import opened Ordered

  /** One cookie and its attributes. `custom` holds every attribute the
      parser does not recognise, keyed by the attribute's name as written. */
  datatype Cookie = Cookie(
    name: Bytes,
    value: Bytes,
    expires: Option<Tm>,
    maxAge: Option<U64>,
    domain: Option<Bytes>,
    path: Option<Bytes>,
    secure: bool,
    httponly: bool,
    custom: map<Bytes, Bytes>)

  /** How parsing can fail. `Invalid` is the `Err(())` that `parse` returns.
      `DomainPanic` is not a return value at all: `v.char_at(0)` panics on
      the empty value of a `Domain=` attribute, and the model records that
      outcome instead of a cookie. */
  datatype ParseError = Invalid | DomainPanic

  /** The functions of the `time` and `url` crates the codec calls. */
  datatype Crates = Crates(strptime: Strptime, rfc822: Rfc822, defaultEncodeSet: EncodeSet)

  const SECURE: Bytes := "secure"
  const HTTPONLY: Bytes := "httponly"
  const MAX_AGE: Bytes := "max-age"
  const DOMAIN: Bytes := "domain"
  const PATH: Bytes := "path"
  const EXPIRES: Bytes := "expires"

  /** The attribute names with a field of their own; no other key is ever
      given a field. */
  predicate IsRecognisedKey(key: Bytes) {
    key == MAX_AGE || key == DOMAIN || key == PATH || key == EXPIRES
  }

  /** `Cookie::new`: the given name and value, path `/`, nothing else set. */
  function New(name: Bytes, value: Bytes): (c: Cookie)
    ensures c.name == name && c.value == value
    ensures c.path == Some("/")
    ensures c.expires.None? && c.maxAge.None? && c.domain.None?
    ensures !c.secure && !c.httponly && c.custom == map[]
  {
    Cookie(name, value, None, None, None, Some("/"), false, false, map[])
  }

  // ---------------------------------------------------------------- parsing

  /** The `split` nested in `parse`: trims its argument and cuts it at the
      first `=`, failing when there is none. */
  function SplitPair(s: Bytes): (r: Option<(Bytes, Bytes)>)
    ensures r.None? <==> '=' !in Trim(s)
    ensures r.Some? ==> Trim(s) == r.value.0 + "=" + r.value.1 && '=' !in r.value.0
  {
    SplitOnce(Trim(s), '=')
  }

  /** `split` on an already trimmed segment is the cut at its first `=`. */
  lemma SplitTrimmed(attr: Bytes)
    ensures SplitPair(Trim(attr)) == SplitOnce(Trim(attr), '=')
  {
    TrimIdempotent(attr);
  }

  /** An attribute segment, as the dispatch in the loop reads it. */
  datatype Attr =
    | SecureAttr
    | HttpOnlyAttr
    | Unpaired                     // neither flag and no `=`: `split` fails
    | MaxAgeAttr(v: Bytes)
    | DomainAttr(v: Bytes)
    | PathAttr(v: Bytes)
    | ExpiresAttr(v: Bytes)
    | CustomAttr(k: Bytes, v: Bytes)

  /** The two nested `match`es of the attribute loop, on the trimmed
      segment: `split` trims once more, which changes nothing on a trimmed
      segment (`SplitTrimmed`), so the cut is made directly. */
  function Classify(attr: Bytes): Attr
  {
    ClassifyTrimmed(Trim(attr))
  }

  /** The trimmed segment in lower case against `secure` and `httponly`,
      then the pair `split` gives. */
  function ClassifyTrimmed(trimmed: Bytes): Attr
  {
    var lower := ToAsciiLower(trimmed);
    if lower == SECURE then SecureAttr
    else if lower == HTTPONLY then HttpOnlyAttr
    else match SplitOnce(trimmed, '=')
      case None => Unpaired
      case Some((k, v)) => ClassifyPair(k, v)
  }

  /** The inner `match`: the key in lower case against the four attribute
      names. An unrecognised key is kept as written. */
  function ClassifyPair(k: Bytes, v: Bytes): Attr
  {
    var key := ToAsciiLower(k);
    if key == MAX_AGE then MaxAgeAttr(v)
    else if key == DOMAIN then DomainAttr(v)
    else if key == PATH then PathAttr(v)
    else if key == EXPIRES then ExpiresAttr(v)
    else CustomAttr(k, v)
  }

  /** What one attribute does to the cookie. `Max-Age` must read as a `u64`;
      `Domain` loses one leading `.` and is lower-cased; `Path` is kept as
      written; `Expires` takes the first date format that fits; a custom
      attribute's value is stored undecoded, replacing an earlier one. */
  function Apply(crates: Crates, c: Cookie, a: Attr): Result<Cookie, ParseError>
  {
    match a
    case SecureAttr => Success(c.(secure := true))
    case HttpOnlyAttr => Success(c.(httponly := true))
    case Unpaired => Failure(Invalid)
    case MaxAgeAttr(v) =>
      (match ParseU64(v)
       case None => Failure(Invalid)
       case Some(n) => Success(c.(maxAge := Some(n))))
    case DomainAttr(v) =>
      // `v.char_at(0)` panics when `v` is empty.
      if |v| == 0 then Failure(DomainPanic)
      else Success(c.(domain := Some(ToAsciiLower(if v[0] == '.' then v[1..] else v))))
    case PathAttr(v) => Success(c.(path := Some(v)))
    case ExpiresAttr(v) =>
      (match ParseExpires(crates.strptime, v)
       case None => Failure(Invalid)
       case Some(t) => Success(c.(expires := Some(t))))
    case CustomAttr(k, v) => Success(c.(custom := c.custom[k := v]))
  }

  /** `f` applied to each element of `xs`. */
  function Mapped<T, U>(f: T -> U, xs: seq<T>): (r: seq<U>)
    ensures |r| == |xs|
    ensures forall i :: 0 <= i < |xs| ==> r[i] == f(xs[i])
  {
    seq(|xs|, i requires 0 <= i < |xs| => f(xs[i]))
  }

  /** Mapping distributes over concatenation. */
  lemma MappedAppend<T, U>(f: T -> U, a: seq<T>, b: seq<T>)
    ensures Mapped(f, a + b) == Mapped(f, a) + Mapped(f, b)
  {
    forall i | 0 <= i < |a + b| ensures Mapped(f, a + b)[i] == (Mapped(f, a) + Mapped(f, b))[i] {
      if i < |a| {
        assert (a + b)[i] == a[i];
      } else {
        assert (a + b)[i] == b[i - |a|];
      }
    }
  }

  /** The kind of each attribute segment. */
  function Kinds(attrs: seq<Bytes>): (r: seq<Attr>)
    ensures |r| == |attrs|
  {
    Mapped(Classify, attrs)
  }

  lemma KindsAt(attrs: seq<Bytes>, i: nat)
    requires i < |attrs|
    ensures Kinds(attrs)[i] == Classify(attrs[i])
  {
  }

  /** The kinds of consecutive segments are consecutive. */
  lemma KindsAppend(a: seq<Bytes>, b: seq<Bytes>)
    ensures Kinds(a + b) == Kinds(a) + Kinds(b)
  {
    MappedAppend(Classify, a, b);
  }

  /** The attribute loop as a whole: the attributes applied in order, the
      first failure ending it. */
  function ApplyAll(crates: Crates, c: Cookie, kinds: seq<Attr>): Result<Cookie, ParseError>
    decreases |kinds|
  {
    if |kinds| == 0 then Success(c)
    else match ApplyAll(crates, c, kinds[..|kinds| - 1])
      case Failure(e) => Failure(e)
      case Success(d) => Apply(crates, d, kinds[|kinds| - 1])
  }

  /** The loop after `k + 1` attributes is the loop after `k` and one more turn. */
  lemma ApplyAllStep(crates: Crates, c: Cookie, kinds: seq<Attr>, k: nat)
    requires k < |kinds|
    ensures ApplyAll(crates, c, kinds[..k + 1]) ==
            match ApplyAll(crates, c, kinds[..k])
            case Failure(e) => Failure(e)
            case Success(d) => Apply(crates, d, kinds[k])
  {
    assert kinds[..k + 1][..k] == kinds[..k];
  }

  /** Once the loop has failed, the attributes after the failing one change
      nothing: there is no partial cookie. */
  lemma {:induction false} FailureSticks(crates: Crates, c: Cookie, kinds: seq<Attr>, k: nat)
    requires k <= |kinds| && ApplyAll(crates, c, kinds[..k]).Failure?
    ensures ApplyAll(crates, c, kinds) == ApplyAll(crates, c, kinds[..k])
    decreases |kinds| - k
  {
    if k < |kinds| {
      assert kinds[..k + 1][..k] == kinds[..k];
      FailureSticks(crates, c, kinds, k + 1);
    } else {
      assert kinds[..k] == kinds;
    }
  }

  /** `Cookie::parse`, stated as a function of its input. */
  function Parsed(crates: Crates, s: Bytes): Result<Cookie, ParseError>
  {
    var pairs := SplitOn(Trim(s), ';');
    match SplitPair(pairs[0])
    case None => Failure(Invalid)
    case Some((n, v)) =>
      var name := Decode(n);
      var value := Decode(v);
      if !ValidUtf8(name) || !ValidUtf8(value) then Failure(Invalid)
      else ApplyAll(crates, New(name, value), Kinds(pairs[1..]))
  }

  /** The body of the attribute loop in `Cookie::parse`: the cookie after
      one attribute, or the failure that ends the parse. */
  method ParseAttr(crates: Crates, c: Cookie, attr: Bytes) returns (r: Result<Cookie, ParseError>)
    ensures r == Apply(crates, c, Classify(attr))
  {
    var trimmed := Trim(attr);
    var lower := ToAsciiLower(trimmed);
    if lower == SECURE {
      assert Classify(attr) == SecureAttr;
      return Success(c.(secure := true));
    } else if lower == HTTPONLY {
      assert Classify(attr) == HttpOnlyAttr;
      return Success(c.(httponly := true));
    }
    SplitTrimmed(attr);
    var kv := SplitPair(trimmed);
    if kv.None? {
      assert Classify(attr) == Unpaired;
      return Failure(Invalid);
    }
    var (k, v) := kv.value;
    assert Classify(attr) == ClassifyPair(k, v);
    r := ParsePair(crates, c, k, v);
  }

  /** The inner `match` of the attribute loop, on the key and value of a
      `name=value` attribute. */
  method ParsePair(crates: Crates, c: Cookie, k: Bytes, v: Bytes) returns (r: Result<Cookie, ParseError>)
    ensures r == Apply(crates, c, ClassifyPair(k, v))
  {
    var key := ToAsciiLower(k);
    if key == MAX_AGE {
      var n := ParseU64(v);
      if n.None? {
        return Failure(Invalid);
      }
      return Success(c.(maxAge := Some(n.value)));
    } else if key == DOMAIN {
      if |v| == 0 {
        // `v.char_at(0)` panics here.
        return Failure(DomainPanic);
      }
      var domain := if v[0] == '.' then v[1..] else v;
      return Success(c.(domain := Some(ToAsciiLower(domain))));
    } else if key == PATH {
      return Success(c.(path := Some(v)));
    } else if key == EXPIRES {
      var tm := ParseExpires(crates.strptime, v);
      if tm.None? {
        return Failure(Invalid);
      }
      return Success(c.(expires := Some(tm.value)));
    } else {
      return Success(c.(custom := c.custom[k := v]));
    }
  }

  /** `Cookie::parse`: starts from `Cookie::new("", "")`, fills in the
      decoded name and value, then updates the cookie attribute by
      attribute; the first failure ends it. */
  method Parse(crates: Crates, s: Bytes) returns (r: Result<Cookie, ParseError>)
    ensures r == Parsed(crates, s)
  {
    var c := New([], []);
    var pairs := SplitOn(Trim(s), ';');
    var keyval := SplitPair(pairs[0]);
    if keyval.None? {
      return Failure(Invalid);
    }
    var (n, v) := keyval.value;
    var name := Decode(n);
    var value := Decode(v);
    if !ValidUtf8(name) || !ValidUtf8(value) {
      return Failure(Invalid);
    }
    c := c.(name := name, value := value);
    assert c == New(name, value);
    ghost var start := c;
    var attrs := pairs[1..];
    ghost var kinds := Kinds(attrs);

    var i := 0;
    while i < |attrs|
      invariant 0 <= i <= |attrs|
      invariant ApplyAll(crates, start, kinds[..i]) == Success(c)
    {
      ApplyAllStep(crates, start, kinds, i);
      var next := ParseAttr(crates, c, attrs[i]);
      if next.Failure? {
        FailureSticks(crates, start, kinds, i + 1);
        return next;
      }
      c := next.value;
      i := i + 1;
    }
    assert kinds[..i] == kinds;
    assert Parsed(crates, s) == ApplyAll(crates, start, kinds);
    return Success(c);
  }


  // ------------------------------------------------------------- formatting

  /** `AttrVal(attr, val)`: a `name=value` pair to be written. */
  datatype AttrVal = AttrVal(attr: Bytes, val: Bytes) {

    /** Its `fmt::Show`: the name as it is, `=`, the value percent-encoded.
        What follows the `=` decodes to the value when every `%` of the value
        is escaped. */
    function Show(escapes: EncodeSet): (r: Bytes)
      ensures |r| > |attr| && r[..|attr|] == attr && r[|attr|] == '='
      ensures (forall i :: 0 <= i < |val| && val[i] == '%' ==> escapes(val[i])) ==>
                Decode(r[|attr| + 1..]) == val
    {
      var r := attr + "=" + Encode(escapes, val);
      ShowText(attr, val, escapes, r);
      r
    }
  }

  /** The text of a pair `n=v`: the name, `=`, then text that decodes to
      `v` when every `%` of `v` is escaped. */
  lemma ShowText(n: Bytes, v: Bytes, escapes: EncodeSet, r: Bytes)
    requires r == n + "=" + Encode(escapes, v)
    ensures |r| > |n| && r[..|n|] == n && r[|n|] == '='
    ensures (forall i :: 0 <= i < |v| && v[i] == '%' ==> escapes(v[i])) ==> Decode(r[|n| + 1..]) == v
  {
    NameEquals(n, Encode(escapes, v), r);
    if forall i :: 0 <= i < |v| && v[i] == '%' ==> escapes(v[i]) {
      DecodeEncode(escapes, v);
    }
  }

  /** The parts of a text `n=e`. */
  lemma NameEquals(n: Bytes, e: Bytes, r: Bytes)
    requires r == n + "=" + e
    ensures |r| > |n| && r[..|n|] == n && r[|n|] == '=' && r[|n| + 1..] == e
  {
    assert r[..|n|] == n;
    assert r[|n| + 1..] == e;
  }


  /** `Cookie::pair`. */
  function Pair(c: Cookie): (p: AttrVal)
    ensures p.attr == c.name && p.val == c.value
  {
    AttrVal(c.name, c.value)
  }

  /** The custom attributes in the order of `keys`, each as its `AttrVal`. */
  function CustomTexts(escapes: EncodeSet, m: map<Bytes, Bytes>, keys: seq<Bytes>): (r: seq<Bytes>)
    requires forall i :: 0 <= i < |keys| ==> keys[i] in m
    ensures |r| == |keys|
  {
    seq(|keys|, i requires 0 <= i < |keys| => AttrVal(keys[i], m[keys[i]]).Show(escapes))
  }

  const HTTPONLY_TEXT: Bytes := "HttpOnly"
  const SECURE_TEXT: Bytes := "Secure"
  const PATH_TEXT: Bytes := "Path="
  const DOMAIN_TEXT: Bytes := "Domain="
  const MAX_AGE_TEXT: Bytes := "Max-Age="
  const EXPIRES_TEXT: Bytes := "Expires="

  /** A flag `fmt::Show` writes only when it is set. */
  function FlagText(on: bool, text: Bytes): seq<Bytes> {
    if on then [text] else []
  }

  /** An optional field `fmt::Show` writes as `Name=value` only when present. */
  function FieldText(text: Bytes, v: Option<Bytes>): seq<Bytes> {
    match v
    case Some(v) => [text + v]
    case None => []
  }

  /** `Max-Age` as `{}` writes its `u64`. */
  function MaxAgeValue(n: Option<U64>): Option<Bytes> {
    match n
    case Some(n) => Some(Render(n))
    case None => None
  }

  /** `Expires` as `Tm::rfc822` writes it. */
  function ExpiresValue(rfc822: Rfc822, t: Option<Tm>): Option<Bytes> {
    match t
    case Some(t) => Some(rfc822(t))
    case None => None
  }

  /** The attributes `fmt::Show` writes after the pair, in its fixed order:
      `HttpOnly`, `Secure`, `Path`, `Domain`, `Max-Age`, `Expires`, each only
      when set, then the custom attributes in ascending key order. */
  function AttributeTexts(crates: Crates, c: Cookie): seq<Bytes>
  {
    var keys := Ascending(c.custom.Keys);
    assert forall i :: 0 <= i < |keys| ==> keys[i] in c.custom;
    FlagText(c.httponly, HTTPONLY_TEXT)
    + FlagText(c.secure, SECURE_TEXT)
    + FieldText(PATH_TEXT, c.path)
    + FieldText(DOMAIN_TEXT, c.domain)
    + FieldText(MAX_AGE_TEXT, MaxAgeValue(c.maxAge))
    + FieldText(EXPIRES_TEXT, ExpiresValue(crates.rfc822, c.expires))
    + CustomTexts(crates.defaultEncodeSet, c.custom, keys)
  }

  /** Each attribute written as `; ` and the attribute. */
  function Attributes(xs: seq<Bytes>): Bytes
  {
    if |xs| == 0 then [] else "; " + xs[0] + Attributes(xs[1..])
  }

  /** One attribute of the list, written behind `; `, then the rest. */
  lemma AttributesUnfold(xs: seq<Bytes>)
    requires |xs| > 0
    ensures Attributes(xs) == "; " + xs[0] + Attributes(xs[1..])
  {
  }

  /** Two lists of attributes written one after the other. */
  lemma {:induction false} AttributesAppend(xs: seq<Bytes>, ys: seq<Bytes>)
    ensures Attributes(xs + ys) == Attributes(xs) + Attributes(ys)
  {
    if |xs| == 0 {
      assert xs + ys == ys;
    } else {
      AttributesUnfold(xs + ys);
      assert (xs + ys)[1..] == xs[1..] + ys;
      AttributesAppend(xs[1..], ys);
      AttributesUnfold(xs);
    }
  }

  /** No flag set, no optional field present and no custom attribute. */
  predicate NoAttributes(c: Cookie) {
    && !c.httponly && !c.secure
    && c.path.None? && c.domain.None? && c.maxAge.None? && c.expires.None?
    && c.custom == map[]
  }

  /** `fmt::Show` for `Cookie`: the header text. It starts with the pair, and
      it is the pair alone exactly when the cookie has no attribute to write. */
  function Format(crates: Crates, c: Cookie): (r: Bytes)
    ensures var p := Pair(c).Show(crates.defaultEncodeSet);
            |p| <= |r| && r[..|p|] == p && (|r| == |p| <==> NoAttributes(c))
  {
    var xs := AttributeTexts(crates, c);
    AttributesEmpty(xs);
    AttributeTextsEmpty(crates, c);
    Pair(c).Show(crates.defaultEncodeSet) + Attributes(xs)
  }

  /** Attributes are written exactly when there are some. */
  lemma AttributesEmpty(xs: seq<Bytes>)
    ensures |Attributes(xs)| == 0 <==> |xs| == 0
  {
    if |xs| > 0 {
      AttributesUnfold(xs);
    }
  }

  /** `fmt` writes no attribute text exactly when no attribute is set. */
  lemma AttributeTextsEmpty(crates: Crates, c: Cookie)
    ensures |AttributeTexts(crates, c)| == 0 <==> NoAttributes(c)
  {
    if c.custom.Keys != {} {
      var k :| k in c.custom.Keys;
      assert k in Ascending(c.custom.Keys);
    }
    assert c.custom == map[] <==> c.custom.Keys == {};
  }
}
