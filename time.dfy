/**
 * The date handling of the `Expires` attribute. Date parsing
 * (`time::strptime`) and RFC 822 formatting (`Tm::rfc822`) belong to the
 * `time` crate, which is not part of this model: they are parameters, and
 * only the order in which the formats are tried is modelled.
 */
module Time {

  import opened Wrappers
  import opened Bytes

  /** `time::Tm`: a broken-down time, held field by field. */
  datatype Tm = Tm(
    sec: int, min: int, hour: int, mday: int, mon: int, year: int,
    wday: int, yday: int, isdst: int, utcoff: int, nsec: int)

  /** `time::strptime(text, format)`, with its error reduced to `None`. */
  type Strptime = (Bytes, Bytes) -> Option<Tm>

  /** `Tm::rfc822`. */
  type Rfc822 = Tm -> Bytes

  /** The formats an `Expires` value is tried against, in this order: the
      three of section 3.3.1 of RFC 2616 in the order the code lists them,
      with a variant of the RFC 850 form third that has a four-digit year
      and the abbreviated weekday (`%a` where RFC 850 has `%A`). */
  const EXPIRES_FORMATS: seq<Bytes> := [
    "%a, %d %b %Y %H:%M:%S %Z",
    "%A, %d-%b-%y %H:%M:%S %Z",
    "%a, %d-%b-%Y %H:%M:%S %Z",
    "%a %b %d %H:%M:%S %Y"
  ]

  /** The result of the first format that parses `v`, or `None` when none does. */
  function FirstMatch(strptime: Strptime, v: Bytes, formats: seq<Bytes>): Option<Tm>
    decreases |formats|
  {
    if |formats| == 0 then None
    else match strptime(v, formats[0])
      case Some(t) => Some(t)
      case None => FirstMatch(strptime, v, formats[1..])
  }

  /** The formats are tried in order and the first one that parses wins:
      the result is `None` exactly when every format fails, and otherwise it
      is what the earliest successful format gives. */
  lemma {:induction false} FirstMatchIsEarliest(strptime: Strptime, v: Bytes, formats: seq<Bytes>)
    ensures FirstMatch(strptime, v, formats).None? <==>
            forall i :: 0 <= i < |formats| ==> strptime(v, formats[i]).None?
    ensures FirstMatch(strptime, v, formats).Some? ==>
            exists i :: 0 <= i < |formats| && strptime(v, formats[i]) == FirstMatch(strptime, v, formats) &&
                        forall j :: 0 <= j < i ==> strptime(v, formats[j]).None?
    decreases |formats|
  {
    if |formats| > 0 && strptime(v, formats[0]).None? {
      var rest := formats[1..];
      FirstMatchIsEarliest(strptime, v, rest);
      var r := FirstMatch(strptime, v, rest);
      forall i | 0 < i < |formats| ensures formats[i] == rest[i - 1] { }
      if r.Some? {
        var i :| 0 <= i < |rest| && strptime(v, rest[i]) == r &&
                 forall j :: 0 <= j < i ==> strptime(v, rest[j]).None?;
        assert strptime(v, formats[i + 1]) == r;
      }
    }
  }

  /** The `Expires` value read with the first of `EXPIRES_FORMATS` that fits. */
  function ParseExpires(strptime: Strptime, v: Bytes): Option<Tm>
  {
    FirstMatch(strptime, v, EXPIRES_FORMATS)
  }
}
