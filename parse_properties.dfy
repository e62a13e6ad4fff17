/**
 * What `Cookie::parse` promises: when it fails, what each attribute does
 * to the cookie, which attribute wins when several set the same field, and
 * what the fields no attribute mentions hold.
 */
module ParseProperties {

  import opened Wrappers
  import opened Bytes
  import opened Utf8
  import opened Decimal
  import opened Percent
  import opened Time
  import opened Cookies

  /** What an attribute can set: a flag, an optional field, or the entry of
      one custom key. */
  datatype Field =
    | SecureFlag | HttpOnlyFlag | MaxAgeField | DomainField | PathField | ExpiresField
    | CustomEntry(key: Bytes)

  /** The field an attribute of kind `a` sets when it is applied, or `None`
      for a segment without `=` that is not a flag. */
  function FieldOf(a: Attr): Option<Field>
  {
    match a
    case SecureAttr => Some(SecureFlag)
    case HttpOnlyAttr => Some(HttpOnlyFlag)
    case Unpaired => None
    case MaxAgeAttr(_) => Some(MaxAgeField)
    case DomainAttr(_) => Some(DomainField)
    case PathAttr(_) => Some(PathField)
    case ExpiresAttr(_) => Some(ExpiresField)
    case CustomAttr(k, _) => Some(CustomEntry(k))
  }

  /** `c` and `d` agree on field `f`. */
  predicate SameField(c: Cookie, d: Cookie, f: Field) {
    match f
    case SecureFlag => c.secure == d.secure
    case HttpOnlyFlag => c.httponly == d.httponly
    case MaxAgeField => c.maxAge == d.maxAge
    case DomainField => c.domain == d.domain
    case PathField => c.path == d.path
    case ExpiresField => c.expires == d.expires
    case CustomEntry(k) => (k in c.custom <==> k in d.custom) && (k in c.custom ==> c.custom[k] == d.custom[k])
  }

  /** The attributes that make the whole parse fail: a segment that is
      neither a flag nor a `k=v` pair, a `Max-Age` that is not a `u64`, an
      empty `Domain` (the panic) and an `Expires` no format reads. */
  predicate Rejected(crates: Crates, a: Attr) {
    match a
    case Unpaired => true
    case MaxAgeAttr(v) => ParseU64(v).None?
    case DomainAttr(v) => |v| == 0
    case ExpiresAttr(v) => ParseExpires(crates.strptime, v).None?
    case _ => false
  }

  // ------------------------------------------------------ one attribute

  /** An attribute fails exactly when it is rejected, whatever the cookie;
      the panic comes from a `Domain` attribute only. */
  lemma ApplyFailsIff(crates: Crates, c: Cookie, a: Attr)
    ensures Apply(crates, c, a).Failure? <==> Rejected(crates, a)
    ensures Apply(crates, c, a) == Failure(DomainPanic) ==> FieldOf(a) == Some(DomainField)
  {
  }

  /** An attribute that applies changes its own field and nothing else; the
      name and the value are never touched. */
  lemma ApplyTouchesOnlyItsField(crates: Crates, c: Cookie, a: Attr, d: Cookie)
    requires Apply(crates, c, a) == Success(d)
    ensures d.name == c.name && d.value == c.value
    ensures FieldOf(a).Some?
    ensures forall f :: Some(f) != FieldOf(a) ==> SameField(c, d, f)
  {
  }

  /** A text with `=` in it is never one of the two flags. */
  lemma PairIsNoFlag(s: Bytes)
    requires '=' in s
    ensures ToAsciiLower(s) != SECURE && ToAsciiLower(s) != HTTPONLY
  {
    NoEqualsInSecure();
    NoEqualsInHttpOnly();
    LowerKeeps(s, SECURE, '=');
    LowerKeeps(s, HTTPONLY, '=');
  }

  lemma NoEqualsInSecure()
    ensures '=' !in SECURE
  {
  }

  lemma NoEqualsInHttpOnly()
    ensures '=' !in HTTPONLY
  {
  }

  /** A byte that lowering leaves alone, present in `s` and absent from
      `w`, tells the lowered `s` apart from `w`. */
  lemma LowerKeeps(s: Bytes, w: Bytes, b: Byte)
    requires b in s && b !in w && LowerByte(b) == b
    ensures ToAsciiLower(s) != w
  {
    var i :| 0 <= i < |s| && s[i] == b;
    ToAsciiLowerAt(s);
    assert ToAsciiLower(s)[i] == b;
  }

  /** `secure` and `httponly`, in any case and with surrounding whitespace,
      are the two flags, and a segment with `=` in it is dispatched on its
      key alone. */
  lemma ClassifySegment(attr: Bytes)
    ensures ToAsciiLower(Trim(attr)) == SECURE ==> Classify(attr) == SecureAttr
    ensures ToAsciiLower(Trim(attr)) == HTTPONLY ==> Classify(attr) == HttpOnlyAttr
    ensures SplitPair(attr).Some? ==> Classify(attr) == ClassifyPair(SplitPair(attr).value.0, SplitPair(attr).value.1)
  {
    if SplitPair(attr).Some? {
      PairIsNoFlag(Trim(attr));
    }
  }

  /** Any other segment is the failure of `split`. */
  lemma ClassifyUnpaired(attr: Bytes)
    ensures Classify(attr) == Unpaired <==>
            ToAsciiLower(Trim(attr)) != SECURE && ToAsciiLower(Trim(attr)) != HTTPONLY && SplitPair(attr).None?
  {
    ClassifySegment(attr);
    if SplitPair(attr).Some? {
      var (k, v) := SplitPair(attr).value;
      ClassifyPairKinds(k, v);
    }
  }

  /** The key decides the kind, in any case; an unrecognised key is kept as
      written. */
  lemma ClassifyPairKinds(k: Bytes, v: Bytes)
    ensures ClassifyPair(k, v).MaxAgeAttr? <==> ToAsciiLower(k) == MAX_AGE
    ensures ClassifyPair(k, v).DomainAttr? <==> ToAsciiLower(k) == DOMAIN
    ensures ClassifyPair(k, v).PathAttr? <==> ToAsciiLower(k) == PATH
    ensures ClassifyPair(k, v).ExpiresAttr? <==> ToAsciiLower(k) == EXPIRES
    ensures ClassifyPair(k, v).CustomAttr? <==> !IsRecognisedKey(ToAsciiLower(k))
    ensures ClassifyPair(k, v) == CustomAttr(k, v) || ClassifyPair(k, v).v == v
  {
  }

  /** An attribute classified as custom has a key no field is named after. */
  lemma ClassifiedCustom(attr: Bytes)
    ensures Classify(attr).CustomAttr? ==> !IsRecognisedKey(ToAsciiLower(Classify(attr).k))
  {
    ClassifySegment(attr);
    var a := Classify(attr);
    if a.CustomAttr? {
      var (k, v) := SplitPair(attr).value;
      ClassifyPairKinds(k, v);
    }
  }

  /** A segment `k=v` whose key names a field is that field's attribute. */
  lemma ClassifiedNamed(attr: Bytes, k: Bytes, v: Bytes)
    requires SplitPair(attr) == Some((k, v))
    ensures ToAsciiLower(k) == MAX_AGE ==> Classify(attr) == MaxAgeAttr(v)
    ensures ToAsciiLower(k) == DOMAIN ==> Classify(attr) == DomainAttr(v)
    ensures ToAsciiLower(k) == PATH ==> Classify(attr) == PathAttr(v)
    ensures ToAsciiLower(k) == EXPIRES ==> Classify(attr) == ExpiresAttr(v)
  {
    ClassifySegment(attr);
  }

  /** `Max-Age=v`: the value must read as a `u64`, else the attribute fails. */
  lemma MaxAgeEffect(crates: Crates, c: Cookie, attr: Bytes, k: Bytes, v: Bytes)
    requires SplitPair(attr) == Some((k, v)) && ToAsciiLower(k) == MAX_AGE
    ensures Apply(crates, c, Classify(attr)) ==
            if ParseU64(v).Some? then Success(c.(maxAge := ParseU64(v))) else Failure(Invalid)
  {
    ClassifySegment(attr);
    assert Classify(attr) == MaxAgeAttr(v);
  }

  /** `Domain=v`: exactly one leading `.` is dropped and the rest is
      lower-cased; an empty value is the panic of `char_at(0)`. */
  lemma DomainEffect(crates: Crates, c: Cookie, attr: Bytes, k: Bytes, v: Bytes)
    requires SplitPair(attr) == Some((k, v)) && ToAsciiLower(k) == DOMAIN
    ensures |v| == 0 ==> Apply(crates, c, Classify(attr)) == Failure(DomainPanic)
    ensures |v| > 0 && v[0] == '.' ==> Apply(crates, c, Classify(attr)) == Success(c.(domain := Some(ToAsciiLower(v[1..]))))
    ensures |v| > 0 && v[0] != '.' ==> Apply(crates, c, Classify(attr)) == Success(c.(domain := Some(ToAsciiLower(v))))
    ensures Apply(crates, c, Classify(attr)).Success? ==>
              var d := Apply(crates, c, Classify(attr)).value.domain;
              d.Some? && ToAsciiLower(d.value) == d.value
  {
    ClassifySegment(attr);
    assert Classify(attr) == DomainAttr(v);
    if |v| > 0 {
      ToAsciiLowerIdempotent(if v[0] == '.' then v[1..] else v);
    }
  }

  /** `Path=v` stores `v` as it is: no decoding, no lower-casing. */
  lemma PathEffect(crates: Crates, c: Cookie, attr: Bytes, k: Bytes, v: Bytes)
    requires SplitPair(attr) == Some((k, v)) && ToAsciiLower(k) == PATH
    ensures Apply(crates, c, Classify(attr)) == Success(c.(path := Some(v)))
  {
    ClassifySegment(attr);
    assert Classify(attr) == PathAttr(v);
  }

  /** `Expires=v` takes the first of the four formats that reads `v`, and
      fails when none does. */
  lemma ExpiresEffect(crates: Crates, c: Cookie, attr: Bytes, k: Bytes, v: Bytes)
    requires SplitPair(attr) == Some((k, v)) && ToAsciiLower(k) == EXPIRES
    ensures Apply(crates, c, Classify(attr)).Failure? <==>
            forall i :: 0 <= i < |EXPIRES_FORMATS| ==> crates.strptime(v, EXPIRES_FORMATS[i]).None?
    ensures Apply(crates, c, Classify(attr)).Success? ==>
            exists i :: 0 <= i < |EXPIRES_FORMATS| &&
              crates.strptime(v, EXPIRES_FORMATS[i]) == Apply(crates, c, Classify(attr)).value.expires &&
              forall j :: 0 <= j < i ==> crates.strptime(v, EXPIRES_FORMATS[j]).None?
  {
    ClassifiedNamed(attr, k, v);
    ExpiresApplied(crates, c, v);
  }

  lemma ExpiresApplied(crates: Crates, c: Cookie, v: Bytes)
    ensures Apply(crates, c, ExpiresAttr(v)).Failure? <==>
            forall i :: 0 <= i < |EXPIRES_FORMATS| ==> crates.strptime(v, EXPIRES_FORMATS[i]).None?
    ensures Apply(crates, c, ExpiresAttr(v)).Success? ==>
            exists i :: 0 <= i < |EXPIRES_FORMATS| &&
              crates.strptime(v, EXPIRES_FORMATS[i]) == Apply(crates, c, ExpiresAttr(v)).value.expires &&
              forall j :: 0 <= j < i ==> crates.strptime(v, EXPIRES_FORMATS[j]).None?
  {
    FirstMatchIsEarliest(crates.strptime, v, EXPIRES_FORMATS);
  }

  /** Any other key goes into `custom` with its casing and its value as
      written, replacing an earlier value for the same key. */
  lemma CustomEffect(crates: Crates, c: Cookie, attr: Bytes, k: Bytes, v: Bytes)
    requires SplitPair(attr) == Some((k, v)) && !IsRecognisedKey(ToAsciiLower(k))
    ensures Apply(crates, c, Classify(attr)) == Success(c.(custom := c.custom[k := v]))
  {
    ClassifySegment(attr);
    assert Classify(attr) == CustomAttr(k, v);
  }

  /** A flag name with a value (`Secure=1`, `httponly=yes`) is not the
      flag: it is a custom attribute, kept with its key as written. */
  lemma ValuedFlagIsCustom(attr: Bytes, k: Bytes, v: Bytes)
    requires SplitPair(attr) == Some((k, v))
    requires ToAsciiLower(k) == SECURE || ToAsciiLower(k) == HTTPONLY
    ensures Classify(attr) == CustomAttr(k, v)
  {
    ClassifySegment(attr);
    ClassifyPairKinds(k, v);
  }

  // ------------------------------------------------------ the attribute loop

  /** Running the loop over `xs + ys` is running it over `xs`, then over `ys`. */
  lemma {:induction false} ApplyAllAppend(crates: Crates, c: Cookie, xs: seq<Attr>, ys: seq<Attr>)
    ensures ApplyAll(crates, c, xs + ys) ==
            match ApplyAll(crates, c, xs)
            case Failure(e) => Failure(e)
            case Success(d) => ApplyAll(crates, d, ys)
    decreases |ys|
  {
    if |ys| == 0 {
      assert xs + ys == xs;
    } else {
      var zs := xs + ys;
      assert zs[..|zs| - 1] == xs + ys[..|ys| - 1];
      assert zs[|zs| - 1] == ys[|ys| - 1];
      ApplyAllAppend(crates, c, xs, ys[..|ys| - 1]);
    }
  }

  /** The loop fails exactly when one of the attributes is rejected. */
  lemma {:induction false} ApplyAllFailsIff(crates: Crates, c: Cookie, kinds: seq<Attr>)
    ensures ApplyAll(crates, c, kinds).Failure? <==>
            exists i :: 0 <= i < |kinds| && Rejected(crates, kinds[i])
    decreases |kinds|
  {
    if |kinds| > 0 {
      var init, last := kinds[..|kinds| - 1], kinds[|kinds| - 1];
      ApplyAllFailsIff(crates, c, init);
      assert forall i :: 0 <= i < |init| ==> init[i] == kinds[i];
      match ApplyAll(crates, c, init)
      case Failure(_) =>
        var i :| 0 <= i < |init| && Rejected(crates, init[i]);
        assert kinds[i] == init[i];
      case Success(d) =>
        ApplyFailsIff(crates, d, last);
    }
  }

  /** The loop never changes the name or the value. */
  lemma {:induction false} ApplyAllKeepsPair(crates: Crates, c: Cookie, kinds: seq<Attr>, d: Cookie)
    requires ApplyAll(crates, c, kinds) == Success(d)
    ensures d.name == c.name && d.value == c.value
    decreases |kinds|
  {
    if |kinds| > 0 {
      var e := ApplyAll(crates, c, kinds[..|kinds| - 1]).value;
      ApplyAllKeepsPair(crates, c, kinds[..|kinds| - 1], e);
      ApplyTouchesOnlyItsField(crates, e, kinds[|kinds| - 1], d);
    }
  }

  /** A field no attribute sets keeps the value it had before the loop. */
  lemma {:induction false} UntouchedField(crates: Crates, c: Cookie, kinds: seq<Attr>, d: Cookie, f: Field)
    requires ApplyAll(crates, c, kinds) == Success(d)
    requires forall i :: 0 <= i < |kinds| ==> FieldOf(kinds[i]) != Some(f)
    ensures SameField(c, d, f)
    decreases |kinds|
  {
    if |kinds| > 0 {
      var e := ApplyAll(crates, c, kinds[..|kinds| - 1]).value;
      UntouchedField(crates, c, kinds[..|kinds| - 1], e, f);
      ApplyTouchesOnlyItsField(crates, e, kinds[|kinds| - 1], d);
    }
  }

  /** Last writer wins: a field holds what the last attribute that sets it
      put there; the attributes after that one leave it alone. */
  lemma LastWriterWins(crates: Crates, c: Cookie, kinds: seq<Attr>, d: Cookie, i: nat, f: Field)
    requires ApplyAll(crates, c, kinds) == Success(d)
    requires i < |kinds| && FieldOf(kinds[i]) == Some(f)
    requires forall j :: i < j < |kinds| ==> FieldOf(kinds[j]) != Some(f)
    ensures ApplyAll(crates, c, kinds[..i + 1]).Success?
    ensures SameField(ApplyAll(crates, c, kinds[..i + 1]).value, d, f)
  {
    var xs, ys := kinds[..i + 1], kinds[i + 1..];
    assert kinds == xs + ys;
    ApplyAllAppend(crates, c, xs, ys);
    forall j | 0 <= j < |ys| ensures FieldOf(ys[j]) != Some(f) {
      assert ys[j] == kinds[i + 1 + j];
    }
    UntouchedField(crates, ApplyAll(crates, c, xs).value, ys, d, f);
  }

  /** The `Max-Age` of the last `Max-Age` attribute is the one kept. */
  lemma MaxAgeLastWins(crates: Crates, c: Cookie, kinds: seq<Attr>, d: Cookie, i: nat, v: Bytes)
    requires ApplyAll(crates, c, kinds) == Success(d)
    requires i < |kinds| && kinds[i] == MaxAgeAttr(v)
    requires forall j :: i < j < |kinds| ==> !kinds[j].MaxAgeAttr?
    ensures ParseU64(v).Some? && d.maxAge == ParseU64(v)
  {
    LastWriterWins(crates, c, kinds, d, i, MaxAgeField);
    ApplyAllStep(crates, c, kinds, i);
  }

  /** The value of a custom key is that of the last attribute with that key. */
  lemma CustomLastWins(crates: Crates, c: Cookie, kinds: seq<Attr>, d: Cookie, i: nat, k: Bytes, v: Bytes)
    requires ApplyAll(crates, c, kinds) == Success(d)
    requires i < |kinds| && kinds[i] == CustomAttr(k, v)
    requires forall j :: i < j < |kinds| ==> FieldOf(kinds[j]) != Some(CustomEntry(k))
    ensures k in d.custom && d.custom[k] == v
  {
    LastWriterWins(crates, c, kinds, d, i, CustomEntry(k));
    ApplyAllStep(crates, c, kinds, i);
  }

  /** No key of `custom` names a field of its own (`max-age`, `domain`,
      `path`, `expires`, in any case). */
  predicate CustomKeysUnrecognised(c: Cookie) {
    forall k :: k in c.custom ==> !IsRecognisedKey(ToAsciiLower(k))
  }

  /** No custom kind has a recognised key. */
  predicate KindsCustomUnrecognised(kinds: seq<Attr>) {
    forall i :: 0 <= i < |kinds| && kinds[i].CustomAttr? ==> !IsRecognisedKey(ToAsciiLower(kinds[i].k))
  }

  /** Classified segments never carry a custom kind with a recognised key. */
  lemma KindsOfSegments(attrs: seq<Bytes>)
    ensures KindsCustomUnrecognised(Kinds(attrs))
  {
    forall i | 0 <= i < |attrs| {
      ClassifiedCustom(attrs[i]);
    }
  }

  /** The loop never gives `custom` a key that names a field. */
  lemma {:induction false} ApplyAllKeepsCustomUnrecognised(crates: Crates, c: Cookie, kinds: seq<Attr>, d: Cookie)
    requires CustomKeysUnrecognised(c) && KindsCustomUnrecognised(kinds)
    requires ApplyAll(crates, c, kinds) == Success(d)
    ensures CustomKeysUnrecognised(d)
    decreases |kinds|
  {
    if |kinds| > 0 {
      var init, a := kinds[..|kinds| - 1], kinds[|kinds| - 1];
      var e := ApplyAll(crates, c, init).value;
      assert forall i :: 0 <= i < |init| ==> init[i] == kinds[i];
      ApplyAllKeepsCustomUnrecognised(crates, c, init, e);
      ApplyTouchesOnlyItsField(crates, e, a, d);
      forall k | k in d.custom ensures !IsRecognisedKey(ToAsciiLower(k)) {
        if !(a.CustomAttr? && k == a.k) {
          assert SameField(e, d, CustomEntry(k));
        }
      }
    }
  }

  // ------------------------------------------------------ the whole parse

  /** The first `;`-separated segment of the trimmed input. */
  function FirstSegment(s: Bytes): Bytes {
    SplitOn(Trim(s), ';')[0]
  }

  /** The attribute segments after it. */
  function AttributeSegments(s: Bytes): seq<Bytes> {
    SplitOn(Trim(s), ';')[1..]
  }

  lemma RejectedKinds(crates: Crates, attrs: seq<Bytes>)
    ensures (exists i :: 0 <= i < |attrs| && Rejected(crates, Kinds(attrs)[i])) <==>
            (exists i :: 0 <= i < |attrs| && Rejected(crates, Classify(attrs[i])))
  {
    forall i | 0 <= i < |attrs| ensures Kinds(attrs)[i] == Classify(attrs[i]) {
      KindsAt(attrs, i);
    }
  }

  /** Parsing fails exactly when the first segment has no `=`, when the name
      or the value does not decode to UTF-8, or when an attribute is
      rejected. */
  lemma ParsedFailsIff(crates: Crates, s: Bytes)
    ensures Parsed(crates, s).Failure? <==>
            || '=' !in Trim(FirstSegment(s))
            || !ValidUtf8(Decode(SplitPair(FirstSegment(s)).value.0))
            || !ValidUtf8(Decode(SplitPair(FirstSegment(s)).value.1))
            || exists i :: 0 <= i < |AttributeSegments(s)| && Rejected(crates, Classify(AttributeSegments(s)[i]))
  {
    var kv := SplitPair(FirstSegment(s));
    if kv.Some? {
      var c := New(Decode(kv.value.0), Decode(kv.value.1));
      var attrs := AttributeSegments(s);
      ApplyAllFailsIff(crates, c, Kinds(attrs));
      RejectedKinds(crates, attrs);
    }
  }

  /** A successful parse holds the decoded text before the first `=` of the
      first segment as its name and everything after that `=` as its value,
      and each field no attribute sets as `Cookie::new` sets it: in
      particular the path is `/` unless a `Path` attribute says otherwise. */
  lemma ParsedSuccess(crates: Crates, s: Bytes, c: Cookie)
    requires Parsed(crates, s) == Success(c)
    ensures SplitPair(FirstSegment(s)).Some?
    ensures Trim(FirstSegment(s)) == SplitPair(FirstSegment(s)).value.0 + "=" + SplitPair(FirstSegment(s)).value.1
    ensures '=' !in SplitPair(FirstSegment(s)).value.0
    ensures c.name == Decode(SplitPair(FirstSegment(s)).value.0)
    ensures c.value == Decode(SplitPair(FirstSegment(s)).value.1)
    ensures forall f :: (forall i :: 0 <= i < |AttributeSegments(s)| ==> FieldOf(Classify(AttributeSegments(s)[i])) != Some(f)) ==>
                        SameField(New(c.name, c.value), c, f)
    ensures CustomKeysUnrecognised(c)
  {
    var kv := SplitPair(FirstSegment(s)).value;
    var start := New(Decode(kv.0), Decode(kv.1));
    var attrs := AttributeSegments(s);
    var kinds := Kinds(attrs);
    ApplyAllKeepsPair(crates, start, kinds, c);
    forall f | forall i :: 0 <= i < |attrs| ==> FieldOf(Classify(attrs[i])) != Some(f)
      ensures SameField(New(c.name, c.value), c, f)
    {
      assert forall i :: 0 <= i < |kinds| ==> kinds[i] == Classify(attrs[i]);
      UntouchedField(crates, start, kinds, c, f);
    }
    KindsOfSegments(attrs);
    ApplyAllKeepsCustomUnrecognised(crates, start, kinds, c);
  }

  /** Parsing does not leave the path unset: without a `Path` attribute it
      is the `/` of `Cookie::new`. */
  lemma ParsedDefaultPath(crates: Crates, s: Bytes, c: Cookie)
    requires Parsed(crates, s) == Success(c)
    requires forall i :: 0 <= i < |AttributeSegments(s)| ==> FieldOf(Classify(AttributeSegments(s)[i])) != Some(PathField)
    ensures c.path == Some("/")
  {
    ParsedSuccess(crates, s, c);
    assert SameField(New(c.name, c.value), c, PathField);
  }

  /** Without attributes, a parse gives exactly `Cookie::new` of the decoded
      halves of the pair. */
  lemma ParsedWithoutAttributes(crates: Crates, s: Bytes)
    requires ';' !in Trim(s)
    requires Parsed(crates, s).Success?
    ensures SplitPair(FirstSegment(s)).Some?
    ensures var kv := SplitPair(FirstSegment(s)).value;
            Parsed(crates, s) == Success(New(Decode(kv.0), Decode(kv.1)))
  {
    ParsedSuccess(crates, s, Parsed(crates, s).value);
    SplitOnNone(Trim(s), ';');
  }

  /** Whitespace around the header text makes no difference. */
  lemma ParsedIgnoresSurroundingWhitespace(crates: Crates, w: Bytes, s: Bytes, w': Bytes)
    requires forall i :: 0 <= i < |w| ==> IsWhitespace(w[i])
    requires forall i :: 0 <= i < |w'| ==> IsWhitespace(w'[i])
    ensures Parsed(crates, w + s + w') == Parsed(crates, s)
  {
    TrimSurrounded(w, s, w');
  }

  /** An empty segment is neither a flag nor a pair. */
  lemma EmptySegmentRejected(crates: Crates)
    ensures Rejected(crates, Classify([]))
  {
    ClassifyUnpaired([]);
  }

  /** A trailing `;` leaves an empty last segment, which is rejected. */
  lemma TrailingSemicolonFails(crates: Crates, s: Bytes)
    requires |Trim(s)| > 0 && Trim(s)[|Trim(s)| - 1] == ';'
    ensures Parsed(crates, s).Failure?
  {
    var t := Trim(s);
    var pairs := SplitOn(t, ';');
    JoinWithEndsWithLast(pairs, ';');
    var last := pairs[|pairs| - 1];
    if |last| > 0 {
      assert false;
    }
    assert |pairs| >= 2;
    EmptySegmentRejected(crates);
    ParsedFailsIff(crates, s);
    assert AttributeSegments(s)[|pairs| - 2] == last;
  }

  // ------------------------------------------------------ text helpers

  /** The last piece of a joined text is at its end. */
  lemma {:induction false} JoinWithEndsWithLast(parts: seq<Bytes>, sep: Byte)
    requires |parts| > 0
    ensures var j := JoinWith(parts, sep); var last := parts[|parts| - 1];
            |last| <= |j| && j[|j| - |last|..] == last
    decreases |parts|
  {
    if |parts| > 1 {
      JoinWithEndsWithLast(parts[1..], sep);
    }
  }

  lemma {:induction false} TrimStartAppend(s: Bytes, w: Byte)
    requires IsWhitespace(w)
    ensures TrimStart(s + [w]) == if TrimStart(s) == [] then [] else TrimStart(s) + [w]
    decreases |s|
  {
    if |s| > 0 && IsWhitespace(s[0]) {
      assert (s + [w])[1..] == s[1..] + [w];
      TrimStartAppend(s[1..], w);
    } else if |s| == 0 {
      assert TrimStart([w]) == TrimStart([]);
    }
  }

  lemma TrimBeforeWhitespace(s: Bytes, w: Byte)
    requires IsWhitespace(w)
    ensures Trim(s + [w]) == Trim(s)
  {
    TrimStartAppend(s, w);
    var t := TrimStart(s);
    if t != [] {
      assert (t + [w])[..|t|] == t;
    }
  }

  lemma {:induction false} TrimStartAfterWhitespaces(w: Bytes, s: Bytes)
    requires forall i :: 0 <= i < |w| ==> IsWhitespace(w[i])
    ensures TrimStart(w + s) == TrimStart(s)
    decreases |w|
  {
    if |w| > 0 {
      assert (w + s)[1..] == w[1..] + s;
      TrimStartAfterWhitespaces(w[1..], s);
    } else {
      assert w + s == s;
    }
  }

  lemma TrimAfterWhitespaces(w: Bytes, s: Bytes)
    requires forall i :: 0 <= i < |w| ==> IsWhitespace(w[i])
    ensures Trim(w + s) == Trim(s)
  {
    TrimStartAfterWhitespaces(w, s);
  }

  lemma WhitespaceInit(w: Bytes, init: Bytes)
    requires |w| > 0 && init == w[..|w| - 1]
    requires forall i :: 0 <= i < |w| ==> IsWhitespace(w[i])
    ensures forall i :: 0 <= i < |init| ==> IsWhitespace(init[i])
  {
  }

  lemma {:induction false} TrimBeforeWhitespaces(s: Bytes, w: Bytes)
    requires forall i :: 0 <= i < |w| ==> IsWhitespace(w[i])
    ensures Trim(s + w) == Trim(s)
    decreases |w|
  {
    if |w| > 0 {
      var init := w[..|w| - 1];
      var last := w[|w| - 1];
      assert s + w == (s + init) + [last];
      WhitespaceInit(w, init);
      TrimBeforeWhitespace(s + init, last);
      TrimBeforeWhitespaces(s, init);
    } else {
      assert s + w == s;
    }
  }

  lemma TrimSurrounded(w: Bytes, s: Bytes, w': Bytes)
    requires forall i :: 0 <= i < |w| ==> IsWhitespace(w[i])
    requires forall i :: 0 <= i < |w'| ==> IsWhitespace(w'[i])
    ensures Trim(w + s + w') == Trim(s)
  {
    var t := s + w';
    assert w + s + w' == w + t;
    TrimBeforeWhitespaces(s, w');
    TrimAfterWhitespaces(w, t);
  }
}
