/** Joining strings with a separator, as java.lang.String.join does. */
module Strings {
  /** The parts with `sep` between neighbours; no parts give the empty string. */
  function Join(parts: seq<string>, sep: string): (s: string)
    ensures |parts| == 1 ==> s == parts[0]
    decreases |parts|
  {
    if |parts| == 0 then ""
    else if |parts| == 1 then parts[0]
    else Join(parts[..|parts| - 1], sep) + sep + parts[|parts| - 1]
  }

  /** Appending text to the last part appends it to the joined string. */
  lemma JoinExtendLast(q: seq<string>, x: string, y: string, sep: string)
    ensures Join(q + [x + y], sep) == Join(q + [x], sep) + y
  {
    if |q| > 0 {
      assert (q + [x + y])[..|q|] == q && (q + [x])[..|q|] == q;
    }
  }

  /** Adding one part adds the separator and the part. */
  lemma JoinSnoc(q: seq<string>, x: string, sep: string)
    requires |q| > 0
    ensures Join(q + [x], sep) == Join(q, sep) + sep + x
  {
    assert (q + [x])[..|q|] == q;
  }
}
