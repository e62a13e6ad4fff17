// The cases worked out in the unit tests of the codec (src/lib.rs:161-200),
// derived from the general lemmas: a plain pair, an escaped value, the pair
// of a new cookie and the full header text of a cookie with every attribute
// but `Expires`.
module WorkedCases {

  import opened Wrappers
  import opened Bytes
  import opened Utf8
  import opened Decimal
  import opened Percent
  import opened Ordered
  import opened Cookies
  import opened RoundTrip

  // ---------------------------------------------------------------- parsing

  /** A pair `foo=v` with no attributes is read as a new cookie named `foo`
      with the decoded value. */
  lemma ParsedFoo(crates: Crates, s: Bytes, v: Bytes)
    requires s == "foo=" + v
    requires PlainClean(v) && IsAscii(Decode(v))
    ensures Parsed(crates, s) == Success(New("foo", Decode(v)))
  {
    var n: Bytes := "foo";
    assert KeyClean(n);
    assert s == n + "=" + v + Attributes([]);
    DecodeWithoutPercent(n);
    AsciiIsValid(n);
    AsciiIsValid(Decode(v));
    ParsedText(crates, n, v, []);
    assert Kinds([]) == [];
  }

  lemma BarIsPlain()
    ensures PlainClean("bar") && Decode("bar") == "bar" && IsAscii("bar")
  {
    DecodeWithoutPercent("bar");
  }

  /** `Cookie::parse("foo=bar")` is `Cookie::new("foo", "bar")`. */
  lemma ParseFooBar(crates: Crates)
    ensures Parsed(crates, "foo=bar") == Success(New("foo", "bar"))
  {
    BarIsPlain();
    ParsedFoo(crates, "foo=bar", "bar");
  }

  /** `%2F` decodes to `/`. */
  lemma DecodeOddCharacters()
    ensures Decode("b%2Fr") == "b/r"
  {
    var s: Bytes := "b%2Fr";
    assert s[1..][3..] == "r";
    assert HexValue('2') * 16 + HexValue('F') == '/' as int;
  }

  lemma EscapedSlashIsPlain()
    ensures PlainClean("b%2Fr") && IsAscii("b/r")
  {
  }

  /** `Cookie::parse("foo=b%2Fr")` is `Cookie::new("foo", "b/r")`: the value
      is percent-decoded. */
  lemma ParseOddCharacters(crates: Crates)
    ensures Parsed(crates, "foo=b%2Fr") == Success(New("foo", "b/r"))
  {
    EscapedSlashIsPlain();
    DecodeOddCharacters();
    ParsedFoo(crates, "foo=b%2Fr", "b%2Fr");
  }

  // ------------------------------------------------------------- formatting

  /** An encode set that leaves the letters of `bar` and `lol` alone, as the
      default encode set of the `url` crate does. */
  predicate KeepsTestLetters(escapes: EncodeSet) {
    !escapes('a') && !escapes('b') && !escapes('l') && !escapes('o') && !escapes('r')
  }

  /** `Cookie::new("foo", "bar").pair()` is written `foo=bar`. */
  lemma PairFooBar(escapes: EncodeSet)
    requires KeepsTestLetters(escapes)
    ensures Pair(New("foo", "bar")).Show(escapes) == "foo=bar"
  {
    var v: Bytes := "bar";
    assert forall i :: 0 <= i < |v| ==> !escapes(v[i]);
    EncodeUnescaped(escapes, v);
    assert "foo" + "=" + v == "foo=bar";
  }

  /** Six attributes, each written after `; `. */
  lemma AttributesOfSix(p: Bytes, a: Bytes, b: Bytes, c: Bytes, d: Bytes, e: Bytes, f: Bytes)
    ensures p + Attributes([a, b, c, d, e, f]) ==
            p + ("; " + a) + ("; " + b) + ("; " + c) + ("; " + d) + ("; " + e) + ("; " + f)
  {
    AttributesUnfold([f]);
    AttributesUnfold([e, f]);
    AttributesUnfold([d, e, f]);
    AttributesUnfold([c, d, e, f]);
    AttributesUnfold([b, c, d, e, f]);
    AttributesUnfold([a, b, c, d, e, f]);
    assert [a, b, c, d, e, f][1..] == [b, c, d, e, f];
    assert [b, c, d, e, f][1..] == [c, d, e, f];
    assert [c, d, e, f][1..] == [d, e, f];
    assert [d, e, f][1..] == [e, f];
    assert [e, f][1..] == [f];
    assert [f][1..] == [];
  }

  /** Six attributes, each written after `; `, then the rest of the list. */
  lemma AttributesOfSixThen(p: Bytes, a: Bytes, b: Bytes, c: Bytes, d: Bytes, e: Bytes, f: Bytes, ys: seq<Bytes>)
    ensures p + Attributes([a, b, c, d, e, f] + ys) ==
            p + ("; " + a) + ("; " + b) + ("; " + c) + ("; " + d) + ("; " + e) + ("; " + f) + Attributes(ys)
  {
    AttributesAppend([a, b, c, d, e, f], ys);
    AttributesOfSix(p, a, b, c, d, e, f);
  }

  /** A single custom attribute is written as its own pair. */
  lemma CustomTextsSingle(escapes: EncodeSet, m: map<Bytes, Bytes>, k: Bytes)
    requires m.Keys == {k}
    ensures CustomTexts(escapes, m, Ascending(m.Keys)) == [AttrVal(k, m[k]).Show(escapes)]
  {
    AscendingSingle(k);
  }

  /** The attribute texts of a cookie with both flags, a path, a domain, a
      maximum age, no expiry and one custom attribute. */
  lemma FullAttributeTexts(crates: Crates, c: Cookie, k: Bytes)
    requires c.httponly && c.secure && c.path.Some? && c.domain.Some? && c.maxAge.Some?
    requires c.expires.None? && c.custom.Keys == {k}
    ensures AttributeTexts(crates, c) ==
            [HTTPONLY_TEXT, SECURE_TEXT, PATH_TEXT + c.path.value, DOMAIN_TEXT + c.domain.value,
             MAX_AGE_TEXT + Render(c.maxAge.value), AttrVal(k, c.custom[k]).Show(crates.defaultEncodeSet)]
  {
    CustomTextsSingle(crates.defaultEncodeSet, c.custom, k);
  }

  /** The header text of such a cookie, attribute by attribute. */
  lemma FormatFull(crates: Crates, c: Cookie, k: Bytes)
    requires c.httponly && c.secure && c.path.Some? && c.domain.Some? && c.maxAge.Some?
    requires c.expires.None? && c.custom.Keys == {k}
    ensures Format(crates, c) ==
            Pair(c).Show(crates.defaultEncodeSet) + ("; " + HTTPONLY_TEXT) + ("; " + SECURE_TEXT)
            + ("; " + (PATH_TEXT + c.path.value)) + ("; " + (DOMAIN_TEXT + c.domain.value))
            + ("; " + (MAX_AGE_TEXT + Render(c.maxAge.value)))
            + ("; " + AttrVal(k, c.custom[k]).Show(crates.defaultEncodeSet))
  {
    FullAttributeTexts(crates, c, k);
    AttributesOfSix(Pair(c).Show(crates.defaultEncodeSet), HTTPONLY_TEXT, SECURE_TEXT,
                    PATH_TEXT + c.path.value, DOMAIN_TEXT + c.domain.value,
                    MAX_AGE_TEXT + Render(c.maxAge.value),
                    AttrVal(k, c.custom[k]).Show(crates.defaultEncodeSet));
  }

  /** The attribute texts of a cookie with every attribute set: the six
      fixed ones in source order, then the custom ones. */
  lemma EveryAttributeTexts(crates: Crates, c: Cookie)
    requires c.httponly && c.secure && c.path.Some? && c.domain.Some? && c.maxAge.Some? && c.expires.Some?
    ensures var keys := Ascending(c.custom.Keys);
            && (forall i :: 0 <= i < |keys| ==> keys[i] in c.custom)
            && AttributeTexts(crates, c) ==
               [HTTPONLY_TEXT, SECURE_TEXT, PATH_TEXT + c.path.value, DOMAIN_TEXT + c.domain.value,
                MAX_AGE_TEXT + Render(c.maxAge.value), EXPIRES_TEXT + crates.rfc822(c.expires.value)]
               + CustomTexts(crates.defaultEncodeSet, c.custom, keys)
  {
  }

  /** The header text of a cookie with every attribute set: the pair, then
      `HttpOnly`, `Secure`, `Path`, `Domain`, `Max-Age` and `Expires`, then
      one `name=value` per custom attribute, by ascending key. */
  lemma FormatEvery(crates: Crates, c: Cookie)
    requires c.httponly && c.secure && c.path.Some? && c.domain.Some? && c.maxAge.Some? && c.expires.Some?
    ensures var keys := Ascending(c.custom.Keys);
            && (forall i :: 0 <= i < |keys| ==> keys[i] in c.custom)
            && Format(crates, c) ==
               Pair(c).Show(crates.defaultEncodeSet) + ("; " + HTTPONLY_TEXT) + ("; " + SECURE_TEXT)
               + ("; " + (PATH_TEXT + c.path.value)) + ("; " + (DOMAIN_TEXT + c.domain.value))
               + ("; " + (MAX_AGE_TEXT + Render(c.maxAge.value)))
               + ("; " + (EXPIRES_TEXT + crates.rfc822(c.expires.value)))
               + Attributes(CustomTexts(crates.defaultEncodeSet, c.custom, keys))
  {
    EveryAttributeTexts(crates, c);
    AttributesOfSixThen(Pair(c).Show(crates.defaultEncodeSet), HTTPONLY_TEXT, SECURE_TEXT,
                        PATH_TEXT + c.path.value, DOMAIN_TEXT + c.domain.value,
                        MAX_AGE_TEXT + Render(c.maxAge.value), EXPIRES_TEXT + crates.rfc822(c.expires.value),
                        CustomTexts(crates.defaultEncodeSet, c.custom, Ascending(c.custom.Keys)));
  }

  /** The cookie the parse test builds up attribute by attribute. */
  function TestCookie(): (c: Cookie)
    ensures c.name == "foo" && c.value == "bar" && c.custom == map["wut" := "lol"]
  {
    Cookie("foo", "bar", None, Some(4), Some("foo.com"), Some("/foo"), true, true, map["wut" := "lol"])
  }

  lemma TestCookieShape(crates: Crates)
    ensures Format(crates, TestCookie()) ==
            Pair(TestCookie()).Show(crates.defaultEncodeSet) + ("; " + HTTPONLY_TEXT) + ("; " + SECURE_TEXT)
            + ("; " + (PATH_TEXT + "/foo")) + ("; " + (DOMAIN_TEXT + "foo.com"))
            + ("; " + (MAX_AGE_TEXT + Render(4)))
            + ("; " + AttrVal("wut", "lol").Show(crates.defaultEncodeSet))
  {
    var c := TestCookie();
    assert c.custom.Keys == {"wut"};
    FormatFull(crates, c, "wut");
  }

  lemma TestPieces()
    ensures "; " + HTTPONLY_TEXT == "; HttpOnly" && "; " + SECURE_TEXT == "; Secure"
    ensures "; " + (PATH_TEXT + "/foo") == "; Path=/foo"
    ensures "; " + (DOMAIN_TEXT + "foo.com") == "; Domain=foo.com"
    ensures "; " + (MAX_AGE_TEXT + Render(4)) == "; Max-Age=4"
  {
    assert Render(4) == "4";
  }

  lemma TestCustomPiece(escapes: EncodeSet)
    requires KeepsTestLetters(escapes)
    ensures "; " + AttrVal("wut", "lol").Show(escapes) == "; wut=lol"
  {
    var v: Bytes := "lol";
    assert forall i :: 0 <= i < |v| ==> !escapes(v[i]);
    EncodeUnescaped(escapes, v);
    assert "; " + ("wut" + "=" + v) == "; wut=lol";
  }

  /** The header text of the test cookie, in the pieces the test writes it
      in: `foo=bar; HttpOnly; Secure; Path=/foo; Domain=foo.com; Max-Age=4; wut=lol`. */
  lemma FormatTestCookie(crates: Crates)
    requires KeepsTestLetters(crates.defaultEncodeSet)
    ensures Format(crates, TestCookie()) ==
            "foo=bar" + "; HttpOnly" + "; Secure" + "; Path=/foo" + "; Domain=foo.com" + "; Max-Age=4" + "; wut=lol"
  {
    TestCookieShape(crates);
    assert Pair(TestCookie()) == Pair(New("foo", "bar"));
    PairFooBar(crates.defaultEncodeSet);
    TestPieces();
    TestCustomPiece(crates.defaultEncodeSet);
  }
}
