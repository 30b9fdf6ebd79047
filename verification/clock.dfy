/** Elapsed times as the pipeline's parsers produce them: whole seconds, or
    the `float("inf")` sentinel that marks text a parser could not read. */
module Clock {
  import opened Text

  datatype Seconds = Finite(value: int) | Inf

  /** `a <= b` in Python's ordering of integers and `inf`. */
  predicate NoLater(a: Seconds, b: Seconds)
  {
    b.Inf? || (a.Finite? && a.value <= b.value)
  }

  /** Python's `min(a, b)`: the first argument unless the second is smaller. */
  function Min(a: Seconds, b: Seconds): (r: Seconds)
    ensures r == a || r == b
    ensures NoLater(r, a) && NoLater(r, b)
  {
    if NoLater(a, b) then a else b
  }

  /** `time_str.split(":")` */
  function Fields(timeStr: string): seq<string>
  {
    Split(timeStr, ':')
  }

  /** `map(int, parts)` consumed in full: every field converted, or no result
      when some field is not an integer. */
  function IntFields(parts: seq<string>): (r: Option<seq<int>>)
    ensures r.Some? <==> forall i :: 0 <= i < |parts| ==> ParseInt(parts[i]).Some?
    ensures r.Some? ==> |r.value| == |parts|
    ensures r.Some? ==> forall i :: 0 <= i < |parts| ==> ParseInt(parts[i]) == Some(r.value[i])
    decreases |parts|
  {
    if parts == [] then Some([])
    else
      match ParseInt(parts[0])
      case None => None
      case Some(v) =>
        match IntFields(parts[1..])
        case None => None
        case Some(vs) => Some([v] + vs)
  }

  /** A colon-free integer field. */
  predicate IsField(f: string)
  {
    ':' !in f && ParseInt(f).Some?
  }

  function HmsValue(h: int, m: int, s: int): int { h * 3600 + m * 60 + s }

  function MsValue(m: int, s: int): int { m * 60 + s }

  /** "h:m:s" for three colon-free fields splits back into exactly those fields. */
  lemma FieldsOfThree(h: string, m: string, s: string)
    requires ':' !in h && ':' !in m && ':' !in s
    ensures Fields(h + ":" + m + ":" + s) == [h, m, s]
  {
    SplitNoSeparator(s, ':');
    SplitAtFirst(m, ':', s);
    assert h + ":" + m + ":" + s == h + [':'] + (m + [':'] + s);
    SplitAtFirst(h, ':', m + [':'] + s);
  }

  /** "m:s" for two colon-free fields splits back into exactly those fields. */
  lemma FieldsOfTwo(m: string, s: string)
    requires ':' !in m && ':' !in s
    ensures Fields(m + ":" + s) == [m, s]
  {
    SplitNoSeparator(s, ':');
    SplitAtFirst(m, ':', s);
  }
}
