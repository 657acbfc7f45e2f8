/** Go strings as byte sequences, with `strings.Index`, `strings.Split`
    (for a non-empty separator) and `strings.Join`. */
module GoStrings {
  import opened Wrappers

  /** A Go `byte` (`uint8`); a Go `string` is an immutable sequence of them. */
  type Byte = bv8
  type Bytes = seq<Byte>

  /** The ASCII vertical bar `|`, the delimiter of the serial line protocol. */
  const Pipe: Byte := 0x7C

  /** `sep` occurs in `s` starting at byte offset `k`. */
  predicate OccursAt(s: Bytes, sep: Bytes, k: nat) {
    k + |sep| <= |s| && s[k..k + |sep|] == sep
  }

  predicate Contains(s: Bytes, sep: Bytes) {
    exists k: nat | k <= |s| :: OccursAt(s, sep, k)
  }

  /** The first occurrence of `sep` in `s` at or after offset `from`;
      `IndexFromSpec` states that it is the first. */
  function IndexFrom(s: Bytes, sep: Bytes, from: nat): (r: Option<nat>)
    ensures r.Some? ==> from <= r.value && OccursAt(s, sep, r.value)
    decreases |s| - from
  {
    if from + |sep| > |s| then None
    else if s[from..from + |sep|] == sep then Some(from)
    else IndexFrom(s, sep, from + 1)
  }

  /** No occurrence lies between `from` and the one `IndexFrom` finds, and
      none at all at or after `from` when it finds nothing. */
  lemma {:induction false} IndexFromSpec(s: Bytes, sep: Bytes, from: nat)
    ensures IndexFrom(s, sep, from).Some? ==>
              forall k: nat :: from <= k < IndexFrom(s, sep, from).value ==> !OccursAt(s, sep, k)
    ensures IndexFrom(s, sep, from).None? ==> forall k: nat :: from <= k ==> !OccursAt(s, sep, k)
    decreases |s| - from
  {
    if from + |sep| <= |s| && s[from..from + |sep|] != sep {
      IndexFromSpec(s, sep, from + 1);
    }
  }

  /** `strings.Index`: the offset of the leftmost occurrence of `sep` in `s`;
      `IndexSpec` states that it is the leftmost. */
  function Index(s: Bytes, sep: Bytes): (r: Option<nat>)
    ensures r.Some? ==> OccursAt(s, sep, r.value)
  {
    IndexFrom(s, sep, 0)
  }

  /** `Index` finds an occurrence exactly when there is one, and it finds
      the leftmost. */
  lemma IndexSpec(s: Bytes, sep: Bytes)
    ensures Index(s, sep).Some? <==> Contains(s, sep)
    ensures Index(s, sep).Some? ==> forall k: nat :: k < Index(s, sep).value ==> !OccursAt(s, sep, k)
  {
    IndexFromSpec(s, sep, 0);
  }

  /** `strings.Join`: the parts with `sep` between each neighbouring pair. */
  function Join(parts: seq<Bytes>, sep: Bytes): Bytes
  {
    if |parts| == 0 then []
    else if |parts| == 1 then parts[0]
    else parts[0] + sep + Join(parts[1..], sep)
  }

  /** `strings.Split` with a non-empty separator: the pieces of `s` between
      the successive leftmost non-overlapping occurrences of `sep`. There is
      always at least one piece; `SplitAtLeftmost` and `SplitWithoutSeparator`
      state what the pieces are. */
  function Split(s: Bytes, sep: Bytes): (parts: seq<Bytes>)
    requires |sep| > 0
    ensures |parts| >= 1
    decreases |s|
  {
    match Index(s, sep)
    case None => [s]
    case Some(m) => [s[..m]] + Split(s[m + |sep|..], sep)
  }

  /** For any non-empty separator, the first field ends at the leftmost
      occurrence and the remaining fields are the split of the text after
      it. This fixes the fields even where occurrences overlap. */
  lemma SplitAtLeftmost(s: Bytes, sep: Bytes, m: nat)
    requires |sep| > 0
    requires OccursAt(s, sep, m)
    requires forall k: nat :: k < m ==> !OccursAt(s, sep, k)
    ensures Split(s, sep) == [s[..m]] + Split(s[m + |sep|..], sep)
  {
    IndexSpec(s, sep);
    assert Contains(s, sep);
  }

  /** A text without the separator is a single field. */
  lemma SplitWithoutSeparator(s: Bytes, sep: Bytes)
    requires |sep| > 0
    requires !Contains(s, sep)
    ensures Split(s, sep) == [s]
  {
    IndexSpec(s, sep);
  }

  /** The text before the leftmost occurrence holds no occurrence. */
  lemma PrefixBeforeIndexFree(s: Bytes, sep: Bytes, m: nat)
    requires |sep| > 0
    requires Index(s, sep) == Some(m)
    ensures !Contains(s[..m], sep)
  {
    IndexSpec(s, sep);
    var head := s[..m];
    forall k: nat | k <= |head| ensures !OccursAt(head, sep, k) {
      if k + |sep| <= |head| {
        assert head[k..k + |sep|] == s[k..k + |sep|];
        assert !OccursAt(s, sep, k);
      }
    }
  }

  /** Joining a part in front of at least one more part puts the separator
      between them. */
  lemma JoinCons(p: Bytes, rest: seq<Bytes>, sep: Bytes)
    requires |rest| >= 1
    ensures Join([p] + rest, sep) == p + sep + Join(rest, sep)
  {
    assert ([p] + rest)[1..] == rest;
  }

  /** An occurrence cuts a string into the text before it, the separator
      and the text after it. */
  lemma CutAround(s: Bytes, sep: Bytes, m: nat)
    requires OccursAt(s, sep, m)
    ensures s == s[..m] + sep + s[m + |sep|..]
  {
  }

  /** Joining the pieces of a split back together gives the original string. */
  lemma {:induction false} JoinSplit(s: Bytes, sep: Bytes)
    requires |sep| > 0
    ensures Join(Split(s, sep), sep) == s
    decreases |s|
  {
    match Index(s, sep)
    case None =>
    case Some(m) =>
      var tail := s[m + |sep|..];
      var rest := Split(tail, sep);
      assert Split(s, sep) == [s[..m]] + rest;
      JoinSplit(tail, sep);
      JoinCons(s[..m], rest, sep);
      CutAround(s, sep, m);
  }

  /** No piece of a split contains the separator. */
  lemma {:induction false} SplitPiecesFree(s: Bytes, sep: Bytes)
    requires |sep| > 0
    ensures forall i :: 0 <= i < |Split(s, sep)| ==> !Contains(Split(s, sep)[i], sep)
    decreases |s|
  {
    IndexSpec(s, sep);
    match Index(s, sep)
    case None =>
    case Some(m) =>
      var tail := s[m + |sep|..];
      PrefixBeforeIndexFree(s, sep, m);
      SplitPiecesFree(tail, sep);
  }

  /** With a one-byte separator `[c]`, the leftmost occurrence in
      `a + [c] + b` is right after `a` when `a` holds no `c`. */
  lemma IndexAfterSingleFree(a: Bytes, c: Byte, b: Bytes)
    requires c !in a
    ensures Index(a + [c] + b, [c]) == Some(|a|)
  {
    var s := a + [c] + b;
    assert OccursAt(s, [c], |a|) by { assert s[|a|..|a| + 1] == [c]; }
    IndexSpec(s, [c]);
    var r := Index(s, [c]);
    assert r.value <= |a|;
    forall k: nat | k < |a| ensures !OccursAt(s, [c], k) {
      assert s[k] == a[k];
    }
  }

  /** A piece free of the one-byte separator splits into itself. */
  lemma SplitSingleFree(a: Bytes, c: Byte)
    requires c !in a
    ensures Split(a, [c]) == [a]
  {
    IndexSpec(a, [c]);
    forall k: nat | k <= |a| ensures !OccursAt(a, [c], k) {
      if k + 1 <= |a| {
        assert a[k..k + 1][0] == a[k];
      }
    }
  }

  /** The leftmost one-byte separator in `a`, as a position. */
  lemma FirstSingle(a: Bytes, c: Byte) returns (m: nat)
    requires c in a
    ensures m < |a| && a[m] == c && c !in a[..m]
  {
    assert Contains(a, [c]) by {
      var j :| 0 <= j < |a| && a[j] == c;
      assert a[j..j + 1] == [c];
      assert OccursAt(a, [c], j);
    }
    IndexSpec(a, [c]);
    m := Index(a, [c]).value;
    assert a[m..m + 1] == [c];
    forall j | 0 <= j < m ensures a[..m][j] != c {
      assert a[j..j + 1] == [a[j]];
      assert !OccursAt(a, [c], j);
    }
  }

  /** Splitting `a + x` on a one-byte separator first cuts at the leftmost
      separator inside `a`, whatever follows. */
  lemma SplitAtFirstSingle(a: Bytes, c: Byte, m: nat, x: Bytes)
    requires m < |a| && a[m] == c && c !in a[..m]
    ensures Split(a + x, [c]) == [a[..m]] + Split(a[m + 1..] + x, [c])
  {
    var s := a + x;
    assert s == a[..m] + [c] + (a[m + 1..] + x);
    IndexAfterSingleFree(a[..m], c, a[m + 1..] + x);
    assert s[..m] == a[..m];
    assert s[m + 1..] == a[m + 1..] + x;
  }

  lemma SplitAppendSingleFree(a: Bytes, c: Byte, b: Bytes)
    requires c !in a
    ensures Split(a + [c] + b, [c]) == [a] + Split(b, [c])
  {
    SplitSingleFree(a, c);
    IndexAfterSingleFree(a, c, b);
    var s := a + [c] + b;
    assert s[..|a|] == a;
    assert s[|a| + 1..] == b;
  }

  /** Splitting on a one-byte separator is compositional: a separator
      inserted between `a` and `b` adds exactly one boundary. */
  lemma {:induction false} SplitAppendSingle(a: Bytes, c: Byte, b: Bytes)
    ensures Split(a + [c] + b, [c]) == Split(a, [c]) + Split(b, [c])
    decreases |a|
  {
    if c !in a {
      SplitAppendSingleFree(a, c, b);
      SplitSingleFree(a, c);
    } else {
      var m := FirstSingle(a, c);
      SplitAtFirstBeforeSep(a, c, m, b);
      SplitAppendSingle(a[m + 1..], c, b);
      SplitAtFirstAlone(a, c, m);
    }
  }

  lemma SplitAtFirstBeforeSep(a: Bytes, c: Byte, m: nat, b: Bytes)
    requires m < |a| && a[m] == c && c !in a[..m]
    ensures Split(a + [c] + b, [c]) == [a[..m]] + Split(a[m + 1..] + [c] + b, [c])
  {
    var tail := a[m + 1..];
    var x := [c] + b;
    assert a + [c] + b == a + x;
    SplitAtFirstSingle(a, c, m, x);
    assert tail + x == tail + [c] + b;
  }

  lemma SplitAtFirstAlone(a: Bytes, c: Byte, m: nat)
    requires m < |a| && a[m] == c && c !in a[..m]
    ensures Split(a, [c]) == [a[..m]] + Split(a[m + 1..], [c])
  {
    SplitAtFirstSingle(a, c, m, []);
    assert a + [] == a;
    assert a[m + 1..] + [] == a[m + 1..];
  }

  /** Round trip for a one-byte separator: splitting the join of pieces that
      do not contain the separator gives the pieces back. */
  lemma {:induction false} SplitJoinSingle(parts: seq<Bytes>, c: Byte)
    requires |parts| >= 1
    requires forall i :: 0 <= i < |parts| ==> c !in parts[i]
    ensures Split(Join(parts, [c]), [c]) == parts
    decreases |parts|
  {
    if |parts| == 1 {
      SplitSingleFree(parts[0], c);
    } else {
      var tail := Join(parts[1..], [c]);
      JoinCons(parts[0], parts[1..], [c]);
      assert [parts[0]] + parts[1..] == parts;
      SplitAppendSingle(parts[0], c, tail);
      SplitSingleFree(parts[0], c);
      SplitJoinSingle(parts[1..], c);
    }
  }
}
