/**
 * Text operations the plugin takes from Rust's string library: splitting on a
 * separator (`str::split`), splitting on the first separator only
 * (`str::splitn(2, ..)`), and their inverse, joining with a separator.
 */
module Text {

  /** Number of occurrences of `c` in `s`. */
  function Count(s: string, c: char): nat
    decreases |s|
  {
    if |s| == 0 then 0
    else Count(s[..|s| - 1], c) + (if s[|s| - 1] == c then 1 else 0)
  }

  /**
   * The pieces of `s` between occurrences of `sep`, in order, as `str::split`
   * yields them: an input without `sep` is one piece, and a trailing `sep`
   * yields a final empty piece. Defined from the back, one character at a
   * time, the way a left-to-right scan builds it.
   */
  function Split(s: string, sep: char): (pieces: seq<string>)
    ensures |pieces| >= 1
    decreases |s|
  {
    if |s| == 0 then [""]
    else
      var init := Split(s[..|s| - 1], sep);
      if s[|s| - 1] == sep then init + [""]
      else init[..|init| - 1] + [init[|init| - 1] + [s[|s| - 1]]]
  }

  /** The pieces glued back together with `sep` between neighbours. */
  function Join(pieces: seq<string>, sep: char): string
    decreases |pieces|
  {
    if |pieces| == 0 then ""
    else if |pieces| == 1 then pieces[0]
    else Join(pieces[..|pieces| - 1], sep) + [sep] + pieces[|pieces| - 1]
  }

  /**
   * `str::splitn(2, sep)` collected into a vector: one part (the whole input)
   * when `sep` does not occur, otherwise the text before the FIRST `sep` and
   * everything after it, further separators included.
   */
  function SplitOnce(s: string, sep: char): (parts: seq<string>)
    ensures |parts| == 1 || |parts| == 2
    ensures |parts| == 2 <==> sep in s
    ensures |parts| == 1 ==> parts[0] == s
    ensures |parts| == 2 ==> s == parts[0] + [sep] + parts[1] && sep !in parts[0]
    decreases |s|
  {
    if |s| == 0 then [s]
    else if s[0] == sep then ["", s[1..]]
    else
      var rest := SplitOnce(s[1..], sep);
      if |rest| == 1 then [s] else [[s[0]] + rest[0], rest[1]]
  }

  /** Splitting a text that does not contain `sep` yields that text alone. */
  lemma {:induction false} SplitNoSep(s: string, sep: char)
    requires sep !in s
    ensures Split(s, sep) == [s]
    decreases |s|
  {
    if |s| > 0 {
      var t := s[..|s| - 1];
      assert s == t + [s[|s| - 1]];
      SplitNoSep(t, sep);
    }
  }

  /** No piece produced by `Split` contains the separator. */
  lemma {:induction false} SplitPiecesFree(s: string, sep: char)
    ensures forall i :: 0 <= i < |Split(s, sep)| ==> sep !in Split(s, sep)[i]
    decreases |s|
  {
    if |s| > 0 {
      SplitPiecesFree(s[..|s| - 1], sep);
    }
  }

  /** `Split` yields one piece per separator, plus one. */
  lemma {:induction false} SplitLength(s: string, sep: char)
    ensures |Split(s, sep)| == Count(s, sep) + 1
    decreases |s|
  {
    if |s| > 0 {
      SplitLength(s[..|s| - 1], sep);
    }
  }

  /** Extending the last piece by `x` extends the joined text by `x`. */
  lemma JoinExtendLast(pieces: seq<string>, x: string, sep: char)
    requires |pieces| >= 1
    ensures Join(pieces[..|pieces| - 1] + [pieces[|pieces| - 1] + x], sep) == Join(pieces, sep) + x
  {
    var n := |pieces|;
    var p := pieces[..n - 1] + [pieces[n - 1] + x];
    if n > 1 {
      assert p[..n - 1] == pieces[..n - 1];
    }
  }

  /** Joining the pieces of `s` gives back `s` exactly. */
  lemma {:induction false} JoinSplit(s: string, sep: char)
    ensures Join(Split(s, sep), sep) == s
    decreases |s|
  {
    if |s| > 0 {
      var t, c := s[..|s| - 1], s[|s| - 1];
      assert s == t + [c];
      var init := Split(t, sep);
      JoinSplit(t, sep);
      if c == sep {
        assert (init + [""])[..|init|] == init;
      } else {
        JoinExtendLast(init, [c], sep);
      }
    }
  }

  /** `Split` of a text extended by one character, stated on the extension. */
  lemma SplitSnoc(t: string, c: char, sep: char)
    ensures var init := Split(t, sep);
      Split(t + [c], sep) ==
        if c == sep then init + [""] else init[..|init| - 1] + [init[|init| - 1] + [c]]
  {
    assert (t + [c])[..|t|] == t;
  }

  /** Extending the last piece of `left + right` extends the last piece of `right`. */
  lemma ExtendLastConcat(left: seq<string>, right: seq<string>, x: string)
    requires |right| >= 1
    ensures var whole := left + right;
      whole[..|whole| - 1] + [whole[|whole| - 1] + x] ==
        left + (right[..|right| - 1] + [right[|right| - 1] + x])
  {
    var whole := left + right;
    assert whole[..|whole| - 1] == left + right[..|right| - 1];
  }

  /** A separator splits the text into the pieces before it followed by the pieces after it. */
  lemma {:induction false} SplitAppend(a: string, b: string, sep: char)
    ensures Split(a + [sep] + b, sep) == Split(a, sep) + Split(b, sep)
    decreases |b|
  {
    if |b| == 0 {
      assert a + [sep] + b == a + [sep];
      SplitSnoc(a, sep, sep);
    } else {
      var b', c := b[..|b| - 1], b[|b| - 1];
      var pre := a + [sep] + b';
      assert b == b' + [c];
      assert a + [sep] + b == pre + [c];
      SplitAppend(a, b', sep);
      SplitSnoc(pre, c, sep);
      SplitSnoc(b', c, sep);
      if c != sep {
        ExtendLastConcat(Split(a, sep), Split(b', sep), [c]);
      }
    }
  }

  /** `Split` undoes `Join` when no piece contains the separator. */
  lemma {:induction false} SplitJoin(pieces: seq<string>, sep: char)
    requires |pieces| >= 1
    requires forall i :: 0 <= i < |pieces| ==> sep !in pieces[i]
    ensures Split(Join(pieces, sep), sep) == pieces
    decreases |pieces|
  {
    var n := |pieces|;
    if n == 1 {
      SplitNoSep(pieces[0], sep);
    } else {
      var init := pieces[..n - 1];
      SplitJoin(init, sep);
      SplitAppend(Join(init, sep), pieces[n - 1], sep);
      SplitNoSep(pieces[n - 1], sep);
      assert init + [pieces[n - 1]] == pieces;
    }
  }

  /** The first piece and the separator after it open the joined text. */
  lemma {:induction false} JoinFirst(pieces: seq<string>, sep: char)
    requires |pieces| >= 2
    ensures Join(pieces, sep) == pieces[0] + [sep] + Join(pieces[1..], sep)
    decreases |pieces|
  {
    var n := |pieces|;
    if n > 2 {
      JoinFirst(pieces[..n - 1], sep);
      assert pieces[..n - 1][1..] == pieces[1..][..n - 2];
    }
  }

  /** `SplitOnce` cuts at the first separator: any split with a separator-free head is the one it makes. */
  lemma {:induction false} SplitOnceAt(head: string, tail: string, sep: char)
    requires sep !in head
    ensures SplitOnce(head + [sep] + tail, sep) == [head, tail]
    decreases |head|
  {
    var s := head + [sep] + tail;
    if |head| == 0 {
      assert s[1..] == tail;
    } else {
      assert s[1..] == head[1..] + [sep] + tail;
      SplitOnceAt(head[1..], tail, sep);
      assert [head[0]] + head[1..] == head;
    }
  }
}
