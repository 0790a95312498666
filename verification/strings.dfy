/**
 * Splitting a string on a separator character, as Rust's `str::split(char)`
 * does: n separators give n + 1 pieces, and empty pieces are kept (a leading,
 * trailing or doubled separator yields an empty piece).
 */
module Strings {

  function Split(s: string, sep: char): (parts: seq<string>)
    ensures 1 <= |parts| <= |s| + 1
    decreases |s|
  {
    if |s| == 0 then [""] else Push(s[0], Split(s[1..], sep), sep)
  }

  /** The pieces of `[c] + t` from those of `t`: a separator opens a new piece, any other character joins the first. */
  function Push(c: char, parts: seq<string>, sep: char): (r: seq<string>)
    requires |parts| >= 1
    ensures |r| == |parts| + (if c == sep then 1 else 0)
  {
    if c == sep then [""] + parts else [[c] + parts[0]] + parts[1..]
  }

  /** The inverse of `Split`: the pieces glued back with the separator. */
  function Join(parts: seq<string>, sep: char): (r: string)
    requires |parts| >= 1
    ensures parts[0] <= r
    ensures |r| >= |parts| - 1
  {
    if |parts| == 1 then parts[0] else parts[0] + [sep] + Join(parts[1..], sep)
  }

  /** No piece contains the separator. */
  lemma {:induction false} SplitPiecesHaveNoSeparator(s: string, sep: char)
    ensures forall k :: 0 <= k < |Split(s, sep)| ==> sep !in Split(s, sep)[k]
    decreases |s|
  {
    if |s| > 0 {
      SplitPiecesHaveNoSeparator(s[1..], sep);
    }
  }

  /** Splitting loses nothing: joining the pieces gives back the string. */
  lemma {:induction false} JoinSplit(s: string, sep: char)
    ensures Join(Split(s, sep), sep) == s
    decreases |s|
  {
    if |s| > 0 {
      var rest := Split(s[1..], sep);
      JoinSplit(s[1..], sep);
      if s[0] == sep {
        assert ([""] + rest)[1..] == rest;
      } else if |rest| == 1 {
      } else {
        assert ([[s[0]] + rest[0]] + rest[1..])[1..] == rest[1..];
      }
    }
  }

  /** n separators give n + 1 pieces. */
  lemma {:induction false} SplitCount(s: string, sep: char)
    ensures |Split(s, sep)| == multiset(s)[sep] + 1
    decreases |s|
  {
    if |s| > 0 {
      SplitCount(s[1..], sep);
      assert s == [s[0]] + s[1..];
    }
  }

  /** A string without the separator is a single piece. */
  lemma {:induction false} SplitWithoutSeparator(s: string, sep: char)
    requires sep !in s
    ensures Split(s, sep) == [s]
    decreases |s|
  {
    if |s| > 0 {
      SplitWithoutSeparator(s[1..], sep);
      assert [s[0]] + s[1..] == s;
    }
  }

  /** Splitting distributes over a separator: `split(a + sep + b) == split(a) ++ split(b)`. */
  lemma {:induction false} SplitAtSeparator(a: string, b: string, sep: char)
    ensures Split(a + [sep] + b, sep) == Split(a, sep) + Split(b, sep)
    decreases |a|
  {
    var s := a + [sep] + b;
    if |a| == 0 {
      assert s[1..] == b;
    } else {
      assert s[1..] == a[1..] + [sep] + b;
      SplitAtSeparator(a[1..], b, sep);
      PushAppend(a[0], Split(a[1..], sep), Split(b, sep), sep);
    }
  }

  /** Pushing a character onto the pieces only touches the first piece. */
  lemma PushAppend(c: char, x: seq<string>, y: seq<string>, sep: char)
    requires |x| >= 1
    ensures Push(c, x + y, sep) == Push(c, x, sep) + y
  {
    if c != sep {
      assert (x + y)[0] == x[0] && (x + y)[1..] == x[1..] + y;
    }
  }

  /** The first piece runs up to the first separator. */
  lemma {:induction false} SplitFirstPiece(s: string, sep: char)
    requires |Split(s, sep)| >= 2
    ensures |Split(s, sep)[0]| < |s| && s[|Split(s, sep)[0]|] == sep
    ensures s[..|Split(s, sep)[0]|] == Split(s, sep)[0]
    ensures s[|Split(s, sep)[0]| + 1..] == Join(Split(s, sep)[1..], sep)
    decreases |s|
  {
    var rest := Split(s[1..], sep);
    if s[0] == sep {
      JoinSplit(s[1..], sep);
      assert ([""] + rest)[1..] == rest;
    } else {
      SplitFirstPiece(s[1..], sep);
      assert ([[s[0]] + rest[0]] + rest[1..])[1..] == rest[1..];
    }
  }
}
