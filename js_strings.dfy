/** The JavaScript string operations the chat client relies on, modelled on
    `seq<char>`: `startsWith`, `includes` and `indexOf`, `trim`, and `split`
    and `join` with a non-empty string separator. */
module JsStrings {

  datatype Option<+T> = None | Some(value: T)

  /** The code points `String.prototype.trim` removes: ECMAScript's
      WhiteSpace (tab, vertical tab, form feed, space, no-break space, the
      byte order mark and the Zs category) and LineTerminator (LF, CR, LS, PS). */
  predicate IsSpace(c: char) {
    c == '\t' || c == '\n' || c == '\U{000B}' || c == '\U{000C}' || c == '\r'
    || c == ' ' || c == '\U{00A0}' || c == '\U{1680}'
    || ('\U{2000}' <= c <= '\U{200A}')
    || c == '\U{2028}' || c == '\U{2029}' || c == '\U{202F}' || c == '\U{205F}'
    || c == '\U{3000}' || c == '\U{FEFF}'
  }

  predicate StartsWith(s: string, prefix: string) {
    |prefix| <= |s| && s[..|prefix|] == prefix
  }

  /** `t` occurs in `s` starting at index `i`. */
  predicate Occurs(s: string, t: string, i: int) {
    0 <= i && i + |t| <= |s| && s[i..i + |t|] == t
  }

  /** `s.includes(t)` */
  predicate Contains(s: string, t: string) {
    exists i :: 0 <= i <= |s| && Occurs(s, t, i)
  }

  lemma OccursTail(s: string, t: string, i: int)
    requires |s| > 0 && i >= 1
    ensures Occurs(s, t, i) <==> Occurs(s[1..], t, i - 1)
  {
    if 0 <= i - 1 && i - 1 + |t| <= |s| - 1 {
      assert s[1..][i - 1..i - 1 + |t|] == s[i..i + |t|];
    }
  }

  /** `s.indexOf(t)`, with `None` for JavaScript's -1. */
  function IndexOf(s: string, t: string): (r: Option<nat>)
    ensures r.Some? ==> r.value + |t| <= |s|
    decreases |s|
  {
    if |s| < |t| then None
    else if s[..|t|] == t then Some(0)
    else
      match IndexOf(s[1..], t)
      case None => None
      case Some(j) => Some(j + 1)
  }

  /** `indexOf` finds the first index at which `t` occurs, and reports -1
      exactly when there is none. */
  lemma {:induction false} IndexOfSpec(s: string, t: string)
    ensures var r := IndexOf(s, t);
      (r.Some? ==> Occurs(s, t, r.value) && forall i :: 0 <= i < r.value ==> !Occurs(s, t, i))
      && (r.None? <==> !Contains(s, t))
    decreases |s|
  {
    if |s| < |t| {
    } else if s[..|t|] == t {
      assert Occurs(s, t, 0);
    } else {
      IndexOfSpec(s[1..], t);
      forall i | 1 <= i ensures Occurs(s, t, i) <==> Occurs(s[1..], t, i - 1) {
        OccursTail(s, t, i);
      }
      assert !Occurs(s, t, 0);
      if IndexOf(s[1..], t).Some? {
        assert Occurs(s[1..], t, IndexOf(s[1..], t).value);
      }
    }
  }

  /** `indexOf` returns an occurrence with none before it. */
  lemma {:induction false} IndexOfFirst(s: string, t: string, k: nat)
    requires Occurs(s, t, k) && forall i :: 0 <= i < k ==> !Occurs(s, t, i)
    ensures IndexOf(s, t) == Some(k)
    decreases k
  {
    if k > 0 {
      assert !Occurs(s, t, 0);
      OccursTail(s, t, k);
      forall i | 0 <= i < k - 1 ensures !Occurs(s[1..], t, i) {
        OccursTail(s, t, i + 1);
      }
      IndexOfFirst(s[1..], t, k - 1);
    }
  }

  /** `s.trimStart()` */
  function TrimStart(s: string): string
    decreases |s|
  {
    if s != [] && IsSpace(s[0]) then TrimStart(s[1..]) else s
  }

  /** `r` is `s` with a prefix of white space removed, up to the first
      other character. */
  predicate IsTrimStartOf(s: string, r: string) {
    |r| <= |s| && r == s[|s| - |r|..]
    && (forall i :: 0 <= i < |s| - |r| ==> IsSpace(s[i]))
    && (r == [] || !IsSpace(r[0]))
  }

  /** `trimStart` removes a prefix of white space and stops at the first
      other character. */
  lemma {:induction false} TrimStartSpec(s: string)
    ensures IsTrimStartOf(s, TrimStart(s))
    decreases |s|
  {
    if s != [] && IsSpace(s[0]) {
      TrimStartSpec(s[1..]);
      var r := TrimStart(s);
      forall i | 1 <= i < |s| - |r| ensures IsSpace(s[i]) {
        assert s[i] == s[1..][i - 1];
      }
    }
  }

  /** `s.trimEnd()` */
  function TrimEnd(s: string): string
    decreases |s|
  {
    if s != [] && IsSpace(s[|s| - 1]) then TrimEnd(s[..|s| - 1]) else s
  }

  /** `r` is `s` with a suffix of white space removed, back to the last
      other character. */
  predicate IsTrimEndOf(s: string, r: string) {
    |r| <= |s| && r == s[..|r|]
    && (forall i :: |r| <= i < |s| ==> IsSpace(s[i]))
    && (r == [] || !IsSpace(r[|r| - 1]))
  }

  /** `trimEnd` removes a suffix of white space and stops at the last
      other character. */
  lemma {:induction false} TrimEndSpec(s: string)
    ensures IsTrimEndOf(s, TrimEnd(s))
    decreases |s|
  {
    if s != [] && IsSpace(s[|s| - 1]) {
      TrimEndSpec(s[..|s| - 1]);
      var r := TrimEnd(s);
      forall i | |r| <= i < |s| - 1 ensures IsSpace(s[i]) {
        assert s[i] == s[..|s| - 1][i];
      }
    }
  }

  /** No white space at either end. */
  predicate Trimmed(s: string) {
    s == [] || (!IsSpace(s[0]) && !IsSpace(s[|s| - 1]))
  }

  /** `r` is `s` with white space, and only white space, removed at both ends. */
  predicate IsTrimOf(s: string, r: string, k: int) {
    0 <= k && k + |r| <= |s| && r == s[k..k + |r|]
    && (forall i :: 0 <= i < k ==> IsSpace(s[i]))
    && (forall i :: k + |r| <= i < |s| ==> IsSpace(s[i]))
    && Trimmed(r)
  }

  /** `s.trim()` */
  function Trim(s: string): string {
    TrimEnd(TrimStart(s))
  }

  /** `trim` removes white space, and only white space, at both ends. */
  lemma TrimSpec(s: string)
    ensures IsTrimOf(s, Trim(s), |s| - |TrimStart(s)|)
  {
    var t := TrimStart(s);
    TrimStartSpec(s);
    TrimEndSpec(t);
    TrimBothEnds(s, t, TrimEnd(t));
  }

  lemma TrimBothEnds(s: string, t: string, r: string)
    requires IsTrimStartOf(s, t) && IsTrimEndOf(t, r)
    ensures IsTrimOf(s, r, |s| - |t|)
  {
    var k := |s| - |t|;
    forall i | k + |r| <= i < |s| ensures IsSpace(s[i]) {
      assert s[i] == t[i - k];
    }
    assert s[k..k + |r|] == t[..|r|];
    if r != [] {
      assert r[0] == t[0];
    }
  }

  /** Trimming is idempotent, and leaves a string without white space at
      its ends as it is. */
  lemma TrimTrimmed(s: string)
    requires Trimmed(s)
    ensures Trim(s) == s
  {
  }

  lemma TrimIdempotent(s: string)
    ensures Trim(Trim(s)) == Trim(s)
  {
    TrimSpec(s);
    TrimTrimmed(Trim(s));
  }

  /** `s.split(sep)`: scanning from the left, every occurrence of `sep`
      that does not overlap an earlier one ends a piece. */
  function Split(s: string, sep: string): (parts: seq<string>)
    requires sep != []
    ensures |parts| >= 1
    decreases |s|
  {
    if |s| < |sep| then [s]
    else if s[..|sep|] == sep then [""] + Split(s[|sep|..], sep)
    else
      var rest := Split(s[1..], sep);
      [[s[0]] + rest[0]] + rest[1..]
  }

  /** `parts.join(sep)` */
  function Join(parts: seq<string>, sep: string): string
  {
    if parts == [] then ""
    else if |parts| == 1 then parts[0]
    else parts[0] + sep + Join(parts[1..], sep)
  }

  lemma JoinHead(parts: seq<string>, sep: string)
    requires |parts| >= 1
    ensures parts[0] <= Join(parts, sep)
  {
  }

  /** Joining the pieces with the separator gives back the string. */
  lemma {:induction false} JoinSplit(s: string, sep: string)
    requires sep != []
    ensures Join(Split(s, sep), sep) == s
    decreases |s|, 1
  {
    if |s| < |sep| {
    } else if s[..|sep|] == sep {
      JoinSplitAtSep(s, sep);
    } else {
      JoinSplitAtChar(s, sep);
    }
  }

  lemma {:induction false} JoinSplitAtSep(s: string, sep: string)
    requires sep != [] && |s| >= |sep| && s[..|sep|] == sep
    ensures Join(Split(s, sep), sep) == s
    decreases |s|, 0
  {
    var rest := Split(s[|sep|..], sep);
    assert Split(s, sep) == [""] + rest;
    JoinSplit(s[|sep|..], sep);
    JoinCons("", rest, sep);
    assert s == sep + s[|sep|..];
  }

  lemma {:induction false} JoinSplitAtChar(s: string, sep: string)
    requires sep != [] && |s| >= |sep| && s[..|sep|] != sep
    ensures Join(Split(s, sep), sep) == s
    decreases |s|, 0
  {
    var rest := Split(s[1..], sep);
    assert Split(s, sep) == [[s[0]] + rest[0]] + rest[1..];
    JoinSplit(s[1..], sep);
    JoinConsChar(s[0], s[1..], rest, sep);
    assert [s[0]] + s[1..] == s;
  }

  lemma JoinCons(p: string, rest: seq<string>, sep: string)
    requires |rest| >= 1
    ensures Join([p] + rest, sep) == p + sep + Join(rest, sep)
  {
    assert ([p] + rest)[1..] == rest;
  }

  /** The joined pieces again, once a character is put in front of the
      first piece. */
  lemma JoinConsChar(c: char, t: string, rest: seq<string>, sep: string)
    requires |rest| >= 1 && Join(rest, sep) == t
    ensures Join([[c] + rest[0]] + rest[1..], sep) == [c] + t
  {
    if |rest| == 1 {
    } else {
      JoinCons([c] + rest[0], rest[1..], sep);
      JoinCons(rest[0], rest[1..], sep);
      assert rest == [rest[0]] + rest[1..];
    }
  }

  /** No piece contains the separator. */
  lemma {:induction false} SplitPiecesFree(s: string, sep: string)
    requires sep != []
    ensures forall k :: 0 <= k < |Split(s, sep)| ==> !Contains(Split(s, sep)[k], sep)
    decreases |s|
  {
    if |s| < |sep| {
      assert forall i :: !Occurs(s, sep, i);
      assert Split(s, sep) == [s];
    } else if s[..|sep|] == sep {
      var rest := Split(s[|sep|..], sep);
      assert Split(s, sep) == [""] + rest;
      SplitPiecesFree(s[|sep|..], sep);
      assert forall i :: !Occurs("", sep, i);
      PiecesFreeCons("", rest, sep);
    } else {
      var rest := Split(s[1..], sep);
      assert Split(s, sep) == [[s[0]] + rest[0]] + rest[1..];
      SplitPiecesFree(s[1..], sep);
      JoinSplit(s[1..], sep);
      JoinHead(rest, sep);
      assert [s[0]] + s[1..] == s;
      FirstPieceFree(s[0], s[1..], rest[0], sep);
      PiecesFreeCons([s[0]] + rest[0], rest[1..], sep);
    }
  }

  lemma PiecesFreeCons(p: string, rest: seq<string>, sep: string)
    requires !Contains(p, sep)
    requires forall k :: 0 <= k < |rest| ==> !Contains(rest[k], sep)
    ensures forall k :: 0 <= k < |[p] + rest| ==> !Contains(([p] + rest)[k], sep)
  {
    assert forall k :: 1 <= k < |[p] + rest| ==> ([p] + rest)[k] == rest[k - 1];
  }

  /** A character put in front of a separator-free prefix of `t` creates no
      separator unless `[c] + t` starts with one. */
  lemma FirstPieceFree(c: char, t: string, p: string, sep: string)
    requires sep != [] && p <= t && !Contains(p, sep)
    requires |[c] + t| < |sep| || ([c] + t)[..|sep|] != sep
    ensures !Contains([c] + p, sep)
  {
    var first := [c] + p;
    forall i ensures !Occurs(first, sep, i) {
      if i == 0 && |sep| <= |first| {
        assert first[..|sep|] == ([c] + t)[..|sep|];
      } else if i >= 1 {
        OccursTail(first, sep, i);
        assert first[1..] == p;
      }
    }
  }

  /** A string without the separator is a single piece. */
  lemma {:induction false} SplitNone(s: string, sep: string)
    requires sep != [] && !Contains(s, sep)
    ensures Split(s, sep) == [s]
    decreases |s|
  {
    assert !Occurs(s, sep, 0);
    if |s| >= |sep| {
      assert !Contains(s[1..], sep) by {
        forall i ensures !Occurs(s[1..], sep, i) {
          if i >= 0 { OccursTail(s, sep, i + 1); }
        }
      }
      SplitNone(s[1..], sep);
      assert [s[0]] + s[1..] == s;
    }
  }

  /** Splitting is stable under appending: the pieces `s` ends complete stay
      pieces of `s + t`, and only its last, unfinished piece is split again
      together with `t`. */
  lemma {:induction false} SplitAppend(s: string, t: string, sep: string)
    requires sep != []
    ensures var p := Split(s, sep);
      Split(s + t, sep) == p[..|p| - 1] + Split(p[|p| - 1] + t, sep)
    decreases |s|, 1
  {
    if |s| < |sep| {
      assert Split(s, sep) == [s];
    } else if s[..|sep|] == sep {
      SplitAppendAtSep(s, t, sep);
    } else {
      SplitAppendAtChar(s, t, sep);
    }
  }

  lemma {:induction false} SplitAppendAtSep(s: string, t: string, sep: string)
    requires sep != [] && |s| >= |sep| && s[..|sep|] == sep
    ensures var p := Split(s, sep);
      Split(s + t, sep) == p[..|p| - 1] + Split(p[|p| - 1] + t, sep)
    decreases |s|, 0
  {
    var rest := Split(s[|sep|..], sep);
    assert Split(s, sep) == [""] + rest;
    assert (s + t)[..|sep|] == sep;
    assert (s + t)[|sep|..] == s[|sep|..] + t;
    assert Split(s + t, sep) == [""] + Split(s[|sep|..] + t, sep);
    SplitAppend(s[|sep|..], t, sep);
    SplitAppendCons("", rest, Split(s[|sep|..] + t, sep), t, sep);
  }

  lemma {:induction false} SplitAppendAtChar(s: string, t: string, sep: string)
    requires sep != [] && |s| >= |sep| && s[..|sep|] != sep
    ensures var p := Split(s, sep);
      Split(s + t, sep) == p[..|p| - 1] + Split(p[|p| - 1] + t, sep)
    decreases |s|, 0
  {
    var rest := Split(s[1..], sep);
    var q := Split(s[1..] + t, sep);
    assert Split(s, sep) == [[s[0]] + rest[0]] + rest[1..];
    assert (s + t)[..|sep|] == s[..|sep|];
    assert (s + t)[1..] == s[1..] + t;
    assert Split(s + t, sep) == [[s[0]] + q[0]] + q[1..];
    SplitAppend(s[1..], t, sep);
    if |rest| == 1 {
      SplitAppendOnePiece(s, t, sep);
    } else {
      SplitAppendCharStep(s[0], rest, q, t, sep);
    }
  }

  /** `SplitAppend` when the text after the first character is one piece,
      so the whole text is one piece too. */
  lemma SplitAppendOnePiece(s: string, t: string, sep: string)
    requires sep != [] && |s| >= |sep| && s[..|sep|] != sep && |Split(s[1..], sep)| == 1
    ensures var p := Split(s, sep);
      Split(s + t, sep) == p[..|p| - 1] + Split(p[|p| - 1] + t, sep)
  {
    JoinSplit(s[1..], sep);
    assert [s[0]] + s[1..] == s;
    assert Split(s, sep) == [s];
    assert [] + Split(s + t, sep) == Split(s + t, sep);
  }

  /** `SplitAppend` across a piece put in front. */
  lemma SplitAppendCons(p: string, rest: seq<string>, q: seq<string>, t: string, sep: string)
    requires sep != [] && |rest| >= 1 && q == rest[..|rest| - 1] + Split(rest[|rest| - 1] + t, sep)
    ensures var ps := [p] + rest;
      [p] + q == ps[..|ps| - 1] + Split(ps[|ps| - 1] + t, sep)
  {
    var ps := [p] + rest;
    assert ps[..|ps| - 1] == [p] + rest[..|rest| - 1];
    assert ps[|ps| - 1] == rest[|rest| - 1];
  }

  /** `SplitAppend` across a character put in front of a first piece that
      is not the last. */
  lemma SplitAppendCharStep(c: char, rest: seq<string>, q: seq<string>, t: string, sep: string)
    requires sep != [] && |rest| >= 2 && |q| >= 1
    requires q == rest[..|rest| - 1] + Split(rest[|rest| - 1] + t, sep)
    ensures var ps := [[c] + rest[0]] + rest[1..];
      [[c] + q[0]] + q[1..] == ps[..|ps| - 1] + Split(ps[|ps| - 1] + t, sep)
  {
    var ps := [[c] + rest[0]] + rest[1..];
    assert q[0] == rest[0];
    assert q[1..] == rest[1..|rest| - 1] + Split(rest[|rest| - 1] + t, sep);
    assert ps[..|ps| - 1] == [[c] + rest[0]] + rest[1..|rest| - 1];
    assert ps[|ps| - 1] == rest[|rest| - 1];
  }

  /** Dropping the first character cannot create an occurrence. */
  lemma ContainsTail(s: string, t: string)
    requires |s| > 0 && !Contains(s, t)
    ensures !Contains(s[1..], t)
  {
    forall i | 0 <= i <= |s[1..]| ensures !Occurs(s[1..], t, i) {
      OccursTail(s, t, i + 1);
    }
  }

  /** The first separator of `a + sep + r` ends the first piece when no
      separator starts inside `a`. */
  lemma {:induction false} SplitAtFirst(a: string, sep: string, r: string)
    requires sep != [] && !Contains(a + sep[..|sep| - 1], sep)
    ensures Split(a + (sep + r), sep) == [a] + Split(r, sep)
    decreases |a|
  {
    if a == [] {
      SplitAtStart(a, sep, r);
    } else {
      var u := a + sep[..|sep| - 1];
      assert u[1..] == a[1..] + sep[..|sep| - 1];
      ContainsTail(u, sep);
      SplitAtFirst(a[1..], sep, r);
      SplitFirstChar(a, sep, r);
    }
  }

  lemma SplitAtStart(a: string, sep: string, r: string)
    requires sep != [] && a == []
    ensures Split(a + (sep + r), sep) == [a] + Split(r, sep)
  {
    var s := a + (sep + r);
    assert s[..|sep|] == sep;
    assert s[|sep|..] == r;
  }

  lemma SplitFirstChar(a: string, sep: string, r: string)
    requires sep != [] && a != [] && !Contains(a + sep[..|sep| - 1], sep)
    requires Split(a[1..] + (sep + r), sep) == [a[1..]] + Split(r, sep)
    ensures Split(a + (sep + r), sep) == [a] + Split(r, sep)
  {
    var s := a + (sep + r);
    var u := a + sep[..|sep| - 1];
    assert u <= s;
    assert !Occurs(u, sep, 0);
    assert s[..|sep|] == u[..|sep|];
    assert s[1..] == a[1..] + (sep + r);
    assert [a[0]] + a[1..] == a;
  }
}
