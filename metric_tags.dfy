/**
 * The metric-tag helpers of AbstractMethodTimer.java: "key:value" entries of
 * a timing annotation become tags, everything else is dropped.
 */
module MetricTags {
  import opened Wrappers
  import opened Exceptions
  import opened Strings

  const Separator: char := ':'

  datatype Tag = Tag(key: string, value: string)

  /** The pieces of `s` between occurrences of `c`, empty pieces included. */
  function SplitOn(s: string, c: char): (parts: seq<string>)
    ensures |parts| > 0
    decreases |s|
  {
    if |s| == 0 then [""]
    else
      var init := SplitOn(s[..|s| - 1], c);
      var n := |init| - 1;
      if s[|s| - 1] == c then init + [""] else init[..n] + [init[n] + [s[|s| - 1]]]
  }

  /** The pieces hold no separator. */
  lemma {:induction false} SplitOnPieces(s: string, c: char)
    ensures var parts := SplitOn(s, c);
      forall i :: 0 <= i < |parts| ==> c !in parts[i]
    decreases |s|
  {
    if |s| > 0 {
      var u := s[..|s| - 1];
      var last := s[|s| - 1];
      assert s == u + [last];
      SplitOnPieces(u, c);
      SplitOnSnoc(u, last, c);
      if last != c {
        PiecesExtendLast(SplitOn(u, c), last, c);
      }
    }
  }

  /** Joining the pieces with the separator gives the string back. */
  lemma {:induction false} SplitOnJoin(s: string, c: char)
    ensures Join(SplitOn(s, c), [c]) == s
    decreases |s|
  {
    if |s| > 0 {
      var u := s[..|s| - 1];
      var last := s[|s| - 1];
      assert s == u + [last];
      SplitOnJoin(u, c);
      SplitOnSnoc(u, last, c);
      var init := SplitOn(u, c);
      var n := |init| - 1;
      if last == c {
        JoinSnoc(init, "", [c]);
      } else {
        assert init == init[..n] + [init[n]];
        JoinExtendLast(init[..n], init[n], [last], [c]);
      }
    }
  }

  /** Extending the last piece by a character other than the separator keeps every piece free of it. */
  lemma PiecesExtendLast(init: seq<string>, ch: char, c: char)
    requires |init| > 0 && ch != c
    requires forall i :: 0 <= i < |init| ==> c !in init[i]
    ensures var parts := init[..|init| - 1] + [init[|init| - 1] + [ch]];
      forall i :: 0 <= i < |parts| ==> c !in parts[i]
  {
    var n := |init| - 1;
    assert c !in init[n];
  }

  /** Drops empty strings from the end, as String.split does with limit 0. */
  function StripTrailingEmpty(parts: seq<string>): (r: seq<string>)
    ensures |r| <= |parts| && r == parts[..|r|]
    ensures forall j :: |r| <= j < |parts| ==> parts[j] == ""
    ensures |r| == 0 || r[|r| - 1] != ""
    decreases |parts|
  {
    if |parts| > 0 && parts[|parts| - 1] == "" then StripTrailingEmpty(parts[..|parts| - 1]) else parts
  }

  /** String.split(":"): the whole string when it has no ':', else its pieces without trailing empty ones. */
  function JavaSplit(s: string): seq<string> {
    if Separator !in s then [s] else StripTrailingEmpty(SplitOn(s, Separator))
  }

  /** convertTag: a tag when the entry splits into exactly two pieces. */
  function ConvertTag(entry: string): Option<Tag> {
    var pair := JavaSplit(entry);
    if |pair| == 2 then Some(Tag(pair[0], pair[1])) else None
  }

  /** The converted entries, in order, without those that do not convert. */
  function Converted(entries: seq<string>): (tags: seq<Tag>)
    ensures |tags| <= |entries|
    ensures forall t :: t in tags ==> exists i :: 0 <= i < |entries| && ConvertTag(entries[i]) == Some(t)
    ensures forall i :: 0 <= i < |entries| && ConvertTag(entries[i]).Some? ==> ConvertTag(entries[i]).value in tags
    decreases |entries|
  {
    if |entries| == 0 then []
    else
      var rest := Converted(entries[1..]);
      assert forall i :: 1 <= i < |entries| ==> entries[i] == entries[1..][i - 1];
      match ConvertTag(entries[0])
      case Some(t) => [t] + rest
      case None => rest
  }

  /** getMetricTags: no tags for a missing or empty array, else the converted entries. */
  function GetMetricTags(tagsInAnnotation: Option<seq<string>>): (tags: seq<Tag>)
    ensures tagsInAnnotation.None? ==> tags == []
    ensures tagsInAnnotation.Some? ==> tags == Converted(tagsInAnnotation.value)
  {
    if tagsInAnnotation.None? || |tagsInAnnotation.value| == 0 then [] else Converted(tagsInAnnotation.value)
  }

  /** mapExceptionToStatus: every failure is recorded with status 500. */
  function MapExceptionToStatus(ex: Throwable): (status: int)
    ensures status == 500
  {
    500
  }

  // ---------------------------------------------------------------------
  // Which entries convert
  // ---------------------------------------------------------------------

  function Colons(m: nat): string {
    seq(m, _ => Separator)
  }

  function Empties(m: nat): seq<string> {
    seq(m, _ => "")
  }

  /** One more character: a separator opens an empty piece, any other extends the last piece. */
  lemma SplitOnSnoc(y: string, ch: char, c: char)
    ensures var p := SplitOn(y, c);
      SplitOn(y + [ch], c) == if ch == c then p + [""] else p[..|p| - 1] + [p[|p| - 1] + [ch]]
  {
    assert (y + [ch])[..|y + [ch]| - 1] == y;
  }

  lemma {:induction false} SplitOnWithoutSeparator(x: string, v: string, c: char)
    requires c !in v
    ensures var p := SplitOn(x, c);
      SplitOn(x + v, c) == p[..|p| - 1] + [p[|p| - 1] + v]
    decreases |v|
  {
    var p := SplitOn(x, c);
    if |v| == 0 {
      ExtendLastBy(p, v);
      assert x + v == x;
    } else {
      var u := v[..|v| - 1];
      var last := v[|v| - 1];
      DropLast(v, c);
      SplitOnWithoutSeparator(x, u, c);
      assert x + v == (x + u) + [last];
      SplitOnSnoc(x + u, last, c);
      ExtendLastTwice(p, u, last);
    }
  }

  /** Extending the last piece by nothing changes nothing. */
  lemma ExtendLastBy(p: seq<string>, v: string)
    requires |p| > 0 && v == ""
    ensures p[..|p| - 1] + [p[|p| - 1] + v] == p
  {
    assert p[|p| - 1] + v == p[|p| - 1];
  }

  /** The prefix of a string without `c` has no `c`, and the string is that prefix and its last character. */
  lemma DropLast(v: string, c: char)
    requires c !in v && |v| > 0
    ensures c !in v[..|v| - 1] && v[|v| - 1] != c && v == v[..|v| - 1] + [v[|v| - 1]]
  {
    assert forall i :: 0 <= i < |v| - 1 ==> v[..|v| - 1][i] == v[i];
  }

  /** Extending the last piece by u and then by one character extends it by u and that character. */
  lemma ExtendLastTwice(p: seq<string>, u: string, ch: char)
    requires |p| > 0
    ensures var q := p[..|p| - 1] + [p[|p| - 1] + u];
      q[..|q| - 1] + [q[|q| - 1] + [ch]] == p[..|p| - 1] + [p[|p| - 1] + (u + [ch])]
  {
    var q := p[..|p| - 1] + [p[|p| - 1] + u];
    assert q[..|q| - 1] == p[..|p| - 1];
    assert p[|p| - 1] + u + [ch] == p[|p| - 1] + (u + [ch]);
  }

  lemma {:induction false} SplitOnTrailingSeparators(x: string, m: nat, c: char)
    requires c == Separator
    ensures SplitOn(x + Colons(m), c) == SplitOn(x, c) + Empties(m)
    decreases m
  {
    if m == 0 {
      assert x + Colons(m) == x;
    } else {
      SplitOnTrailingSeparators(x, m - 1, c);
      var y := x + Colons(m - 1);
      OneMoreColon(x, m);
      SplitOnSnoc(y, c, c);
      OneMoreEmpty(SplitOn(x, c), m);
    }
  }

  lemma OneMoreColon(x: string, m: nat)
    requires m > 0
    ensures x + Colons(m) == (x + Colons(m - 1)) + [Separator]
  {
    assert Colons(m) == Colons(m - 1) + [Separator];
  }

  lemma OneMoreEmpty(p: seq<string>, m: nat)
    requires m > 0
    ensures p + Empties(m) == (p + Empties(m - 1)) + [""]
  {
    assert Empties(m) == Empties(m - 1) + [""];
  }

  lemma {:induction false} JoinTrailingEmpties(k: string, v: string, m: nat)
    ensures Join([k, v] + Empties(m), [Separator]) == k + [Separator] + v + Colons(m)
    decreases m
  {
    if m == 0 {
      assert [k, v] + Empties(m) == [k] + [v];
      JoinSnoc([k], v, [Separator]);
    } else {
      JoinTrailingEmpties(k, v, m - 1);
      assert [k, v] + Empties(m) == ([k, v] + Empties(m - 1)) + [""];
      JoinSnoc([k, v] + Empties(m - 1), "", [Separator]);
      assert Colons(m) == Colons(m - 1) + [Separator];
    }
  }

  /** Every tag comes from an entry of the form k ':' v followed only by ':'s. */
  lemma ConvertTagSound(entry: string, k: string, v: string)
    requires ConvertTag(entry) == Some(Tag(k, v))
    ensures Separator !in k && Separator !in v && v != ""
    ensures exists m: nat :: entry == k + [Separator] + v + Colons(m)
  {
    ConvertTagPieces(entry, k, v);
    var p := SplitOn(entry, Separator);
    SplitOnPieces(entry, Separator);
    SplitOnJoin(entry, Separator);
    var r := StripTrailingEmpty(p);
    assert r == [k, v] == p[..2];
    var m := |p| - 2;
    assert p == [k, v] + Empties(m);
    JoinTrailingEmpties(k, v, m);
    assert entry == k + [Separator] + v + Colons(m);
  }

  /** Every entry of that form converts. */
  lemma ConvertTagComplete(k: string, v: string, m: nat)
    requires Separator !in k && Separator !in v && v != ""
    ensures ConvertTag(k + [Separator] + v + Colons(m)) == Some(Tag(k, v))
  {
    var kv := k + [Separator] + v;
    SplitOnSingle(k, Separator);
    SplitOnAppendPiece(k, v, Separator);
    assert SplitOn(kv, Separator) == [k, v];
    SplitOnTrailingSeparators(kv, m, Separator);
    var entry := kv + Colons(m);
    assert SplitOn(entry, Separator) == [k, v] + Empties(m);
    StripAll(k, v, m);
    assert entry[|k|] == Separator;
    ConvertTagPieces(entry, k, v);
  }

  /** A string without the separator is a single piece. */
  lemma SplitOnSingle(k: string, c: char)
    requires c !in k
    ensures SplitOn(k, c) == [k]
  {
    SplitOnWithoutSeparator("", k, c);
    assert "" + k == k;
  }

  /** An entry converts to (k, v) exactly when it has a ':' and its pieces, trailing empties dropped, are k and v. */
  lemma ConvertTagPieces(entry: string, k: string, v: string)
    ensures ConvertTag(entry) == Some(Tag(k, v)) <==> Separator in entry && StripTrailingEmpty(SplitOn(entry, Separator)) == [k, v]
  {
  }

  /**
   * An entry converts to (k, v) exactly when it is k, ':', v and possibly more
   * ':' at the end, with no ':' inside k or v and v not empty. So "a:" and
   * "x:y:z" are dropped, and "a:b:" still gives (a, b).
   */
  lemma ConvertTagExactly(entry: string, k: string, v: string)
    ensures ConvertTag(entry) == Some(Tag(k, v)) <==>
      Separator !in k && Separator !in v && v != "" && exists m: nat :: entry == k + [Separator] + v + Colons(m)
  {
    if ConvertTag(entry) == Some(Tag(k, v)) {
      ConvertTagSound(entry, k, v);
    }
    if Separator !in k && Separator !in v && v != "" && exists m: nat :: entry == k + [Separator] + v + Colons(m) {
      var m: nat :| entry == k + [Separator] + v + Colons(m);
      ConvertTagComplete(k, v, m);
    }
  }

  lemma {:induction false} StripAll(k: string, v: string, m: nat)
    requires v != ""
    ensures StripTrailingEmpty([k, v] + Empties(m)) == [k, v]
    decreases m
  {
    if m > 0 {
      var p := [k, v] + Empties(m);
      assert p[..|p| - 1] == [k, v] + Empties(m - 1);
      StripAll(k, v, m - 1);
    }
  }

  /** "env:prod" converts to the tag (env, prod). */
  lemma ConvertsKeyValue()
    ensures ConvertTag("env:prod") == Some(Tag("env", "prod"))
  {
    ConvertTagExactly("env:prod", "env", "prod");
    assert "env:prod" == "env" + [Separator] + "prod" + Colons(0);
  }

  /** An entry without ':' is dropped. */
  lemma DropsWithoutSeparator(entry: string)
    requires Separator !in entry
    ensures ConvertTag(entry).None?
  {
  }

  /** "a:" splits into the single piece "a" and is dropped. */
  lemma DropsEmptyValue()
    ensures ConvertTag("a:").None?
  {
    assert "a:"[..1] == "a" && "a"[..0] == "" && "" + "a" == "a";
    assert SplitOn("a", Separator) == ["a"];
    assert SplitOn("a:", Separator) == ["a", ""];
  }

  /** A separator followed by a piece without one adds that piece. */
  lemma SplitOnAppendPiece(x: string, v: string, c: char)
    requires c !in v
    ensures SplitOn(x + [c] + v, c) == SplitOn(x, c) + [v]
  {
    var p := SplitOn(x, c);
    SplitOnSnoc(x, c, c);
    var q := SplitOn(x + [c], c);
    SplitOnWithoutSeparator(x + [c], v, c);
    assert q[..|q| - 1] == p && "" + v == v;
  }

  /** "x:y:z" splits into three pieces and is dropped. */
  lemma DropsThreePieces()
    ensures ConvertTag("x:y:z").None?
  {
    SplitOnSingle("x", Separator);
    SplitOnAppendPiece("x", "y", Separator);
    assert "x" + [Separator] + "y" == "x:y";
    SplitOnAppendPiece("x:y", "z", Separator);
    assert "x:y" + [Separator] + "z" == "x:y:z";
    assert SplitOn("x:y:z", Separator) == ["x", "y", "z"];
  }
}
