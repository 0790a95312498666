/**
 * Validation of an application ID. An ID is accepted when the pattern
 * `[a-z][a-z0-9_]*(\.[a-z][a-z0-9_]*)+` matches somewhere inside it: the
 * search is unanchored, so characters around a matching piece do not matter.
 */
module ApplicationId {
  import opened Wrappers
  import opened Strings

  datatype InvalidId = InvalidId

  predicate IsLower(c: char)
  {
    'a' <= c <= 'z'
  }

  /** `[a-z0-9_]` */
  predicate IsWordChar(c: char)
  {
    IsLower(c) || '0' <= c <= '9' || c == '_'
  }

  /** `[a-z][a-z0-9_]*` */
  predicate IsSegment(t: string)
  {
    |t| > 0 && IsLower(t[0]) && forall k :: 1 <= k < |t| ==> IsWordChar(t[k])
  }

  /**
   * `t` matches the whole pattern: it is at least two segments joined by
   * dots. Segments hold no dot, so the segments are the pieces of `t` split
   * on `.`.
   */
  predicate FullMatch(t: string)
  {
    var p := Split(t, '.');
    |p| >= 2 && forall k :: 0 <= k < |p| ==> IsSegment(p[k])
  }

  /** What the unanchored search decides: some substring matches the pattern. */
  ghost predicate HasMatch(id: string)
  {
    exists i, j :: 0 <= i <= j <= |id| && FullMatch(id[i..j])
  }

  /** A lowercase letter starts a run of `[a-z0-9_]` that ends just before `k`. */
  ghost predicate LowerRunBefore(id: string, k: nat)
    requires k <= |id|
  {
    exists i :: 0 <= i < k && IsLower(id[i]) && forall m :: i < m < k ==> IsWordChar(id[m])
  }

  /**
   * The shortest matches: a `.` at `j`, a lowercase letter after it and a
   * segment ending before it.
   */
  ghost predicate DotAt(id: string, j: nat)
  {
    j + 1 < |id| && id[j] == '.' && IsLower(id[j + 1]) && LowerRunBefore(id, j)
  }

  /**
   * The search from position `k`, where `run` says whether a lowercase
   * letter starts a `[a-z0-9_]` run ending just before `k`.
   */
  function Scan(id: string, k: nat, run: bool): bool
    decreases |id| - k
  {
    if k >= |id| then false
    else if id[k] == '.' && run && k + 1 < |id| && IsLower(id[k + 1]) then true
    else Scan(id, k + 1, IsWordChar(id[k]) && (run || IsLower(id[k])))
  }

  /** `validate_id`: `Ok` exactly when the pattern matches somewhere in the ID. */
  function ValidateId(id: string): (r: Result<(), InvalidId>)
    ensures r.Ok? <==> HasMatch(id)
  {
    ScanFinds(id, 0, false);
    HasMatchIffDot(id);
    if Scan(id, 0, false) then Ok(()) else Err(InvalidId)
  }

  /** How the run flag moves one character on. */
  lemma LowerRunStep(id: string, k: nat)
    requires k < |id|
    ensures LowerRunBefore(id, k + 1) <==> IsWordChar(id[k]) && (LowerRunBefore(id, k) || IsLower(id[k]))
  {
    if LowerRunBefore(id, k + 1) {
      var i :| 0 <= i < k + 1 && IsLower(id[i]) && forall m :: i < m < k + 1 ==> IsWordChar(id[m]);
      if i < k {
        assert IsWordChar(id[k]);
        assert LowerRunBefore(id, k);
      }
    }
    if IsWordChar(id[k]) && LowerRunBefore(id, k) {
      var i :| 0 <= i < k && IsLower(id[i]) && forall m :: i < m < k ==> IsWordChar(id[m]);
      assert forall m :: i < m < k + 1 ==> IsWordChar(id[m]);
    }
  }

  /** The scan from `k` succeeds exactly when some `.` at or after `k` starts a shortest match. */
  lemma {:induction false} ScanFinds(id: string, k: nat, run: bool)
    requires k <= |id| && run == LowerRunBefore(id, k)
    ensures Scan(id, k, run) <==> exists j :: k <= j && DotAt(id, j)
    decreases |id| - k
  {
    if k < |id| {
      if id[k] == '.' && run && k + 1 < |id| && IsLower(id[k + 1]) {
        assert DotAt(id, k);
      } else {
        LowerRunStep(id, k);
        ScanFinds(id, k + 1, IsWordChar(id[k]) && (run || IsLower(id[k])));
        assert !DotAt(id, k);
      }
    }
  }

  /** A match exists exactly when a shortest match does. */
  lemma HasMatchIffDot(id: string)
    ensures HasMatch(id) <==> exists j :: DotAt(id, j)
  {
    if HasMatch(id) {
      var i, j :| 0 <= i <= j <= |id| && FullMatch(id[i..j]);
      var d := MatchHasDot(id, i, j);
    }
    if exists j :: DotAt(id, j) {
      var j :| DotAt(id, j);
      DotGivesMatch(id, j);
    }
  }

  /** A full match contains a `.` that starts a shortest match. */
  lemma MatchHasDot(id: string, i: nat, j: nat) returns (d: nat)
    requires i <= j <= |id| && FullMatch(id[i..j])
    ensures DotAt(id, d)
  {
    var t := id[i..j];
    var p := Split(t, '.');
    SplitFirstPiece(t, '.');
    var n := |p[0]|;
    JoinHead(p[1..], '.');
    assert t[n + 1..][0] == p[1][0];
    d := i + n;
    assert id[d] == t[n] == '.';
    assert id[d + 1] == t[n + 1];
    assert t[..n] == p[0];
    assert forall m :: i < m < d ==> IsWordChar(id[m]) by {
      forall m | i < m < d ensures IsWordChar(id[m]) {
        assert id[m] == p[0][m - i];
      }
    }
    assert IsLower(id[i]) by {
      assert id[i] == p[0][0];
    }
  }

  /** The glued pieces start with the first piece. */
  lemma JoinHead(q: seq<string>, sep: char)
    requires |q| >= 1 && |q[0]| > 0
    ensures |Join(q, sep)| > 0 && Join(q, sep)[0] == q[0][0]
  {
  }

  /** A shortest match is a full match of a substring. */
  lemma DotGivesMatch(id: string, j: nat)
    requires DotAt(id, j)
    ensures HasMatch(id)
  {
    var i :| 0 <= i < j && IsLower(id[i]) && forall m :: i < m < j ==> IsWordChar(id[m]);
    var a, b := id[i..j], [id[j + 1]];
    assert id[i..j + 2] == a + ['.'] + b;
    SplitAtSeparator(a, b, '.');
    assert '.' !in a by {
      forall m | 0 <= m < |a| ensures a[m] != '.' {
        assert a[m] == id[i + m];
      }
    }
    SplitWithoutSeparator(a, '.');
    SplitWithoutSeparator(b, '.');
    assert IsSegment(a) by {
      forall m | 1 <= m < |a| ensures IsWordChar(a[m]) {
        assert a[m] == id[i + m];
      }
    }
    assert FullMatch(id[i..j + 2]);
  }

  /** Characters around a matching ID never cause a rejection. */
  lemma SurroundedStillValid(prefix: string, id: string, suffix: string)
    requires ValidateId(id).Ok?
    ensures ValidateId(prefix + id + suffix).Ok?
  {
    var i, j :| 0 <= i <= j <= |id| && FullMatch(id[i..j]);
    var s := prefix + id + suffix;
    assert s[|prefix| + i..|prefix| + j] == id[i..j];
  }

  /** An ID without any `.` is rejected. */
  lemma NoDotRejected(id: string)
    requires '.' !in id
    ensures ValidateId(id) == Err(InvalidId)
  {
    HasMatchIffDot(id);
  }

  /** An ID in which no `.` is followed by a lowercase letter is rejected. */
  lemma NoLowerAfterDotRejected(id: string)
    requires forall j :: 0 <= j < |id| - 1 && id[j] == '.' ==> !IsLower(id[j + 1])
    ensures ValidateId(id) == Err(InvalidId)
  {
    HasMatchIffDot(id);
  }

  /** `com.example.app` is accepted. */
  lemma DottedIdAccepted()
    ensures ValidateId("com.example.app").Ok?
  {
    var id := "com.example.app";
    assert id[0] == 'c' && id[1] == 'o' && id[2] == 'm' && id[3] == '.' && id[4] == 'e';
    assert LowerRunBefore(id, 3) by {
      assert forall m :: 0 < m < 3 ==> IsWordChar(id[m]);
    }
    assert DotAt(id, 3);
    HasMatchIffDot(id);
  }

  /** A leading uppercase letter and a trailing `!` do not prevent acceptance. */
  lemma SurroundingCharactersIgnored()
    ensures ValidateId("Xcom.app!").Ok?
  {
    var id := "Xcom.app!";
    assert id[1] == 'c' && id[2] == 'o' && id[3] == 'm' && id[4] == '.' && id[5] == 'a';
    assert LowerRunBefore(id, 4) by {
      assert forall m :: 1 < m < 4 ==> IsWordChar(id[m]);
    }
    assert DotAt(id, 4);
    HasMatchIffDot(id);
  }

  /** Dotted words that start with a digit or an uppercase letter do not match. */
  lemma DigitAfterDotRejected()
    ensures ValidateId("com.1app").Err?
  {
    NoLowerAfterDotRejected("com.1app");
  }
}
