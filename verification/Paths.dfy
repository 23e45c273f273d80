/** The path normaliser: an in-place tokeniser and the canonical form it computes. */
module Paths {
  import opened Bytes

  const SLASH: byte := 0x2F
  const DOT: bytes := [0x2E]
  const DOTDOT: bytes := [0x2E, 0x2E]
  const SD: bytes := [0x73, 0x64]

  const PATH_MAX: nat := 4096

  datatype Storage = Nand | Sd

  /** The offset of the first slash, or the length when there is none (`strchr`). */
  function FirstSlash(s: bytes): (i: nat)
    ensures i <= |s|
    ensures forall k :: 0 <= k < i ==> s[k] != SLASH
    ensures i < |s| ==> s[i] == SLASH
  {
    if s == [] || s[0] == SLASH then 0 else 1 + FirstSlash(s[1..])
  }

  /** All pieces between slashes, empty ones included. */
  function Split(s: bytes): seq<bytes>
    decreases |s|
  {
    var i := FirstSlash(s);
    if i == |s| then [s] else [s[..i]] + Split(s[i + 1..])
  }

  predicate IsKept(c: bytes)
  {
    c != [] && c != DOT
  }

  function Keep(cs: seq<bytes>): seq<bytes>
  {
    if cs == [] then []
    else if IsKept(cs[0]) then [cs[0]] + Keep(cs[1..])
    else Keep(cs[1..])
  }

  /** The components that count. */
  function Kept(s: bytes): seq<bytes>
  {
    Keep(Split(s))
  }

  predicate HasDotDot(s: bytes)
  {
    DOTDOT in Split(s)
  }

  function Slashed(cs: seq<bytes>): bytes
  {
    if cs == [] then [] else [SLASH] + cs[0] + Slashed(cs[1..])
  }

  /** The absolute path of a list of components. */
  function Join(cs: seq<bytes>): (r: bytes)
    ensures r != []
  {
    if cs == [] then [SLASH] else Slashed(cs)
  }

  /** Split on slashes, drop empty and `.` components, join under the root. */
  function Canonical(s: bytes): bytes
  {
    Join(Kept(s))
  }

  function StorageOf(cs: seq<bytes>): Storage
  {
    if cs != [] && cs[0] == SD then Sd else Nand
  }

  /** What `build_path` answers. */
  datatype Built = Built(path: bytes, storage: Storage)

  function BuildPath(relative: bytes, outSize: nat): Option<Built>
  {
    if HasDotDot(relative) || |Canonical(relative)| >= outSize then None
    else Some(Built(Canonical(relative), StorageOf(Kept(relative))))
  }

  // ---- Facts about splitting and joining -----------------------------------------------------

  lemma SplitAt(s: bytes, n: nat)
    requires n < |s| && s[n] == SLASH && FirstSlash(s) == n
    ensures Split(s) == [s[..n]] + Split(s[n + 1..])
  {
  }

  lemma {:induction false} KeepAppend(a: seq<bytes>, b: seq<bytes>)
    ensures Keep(a + b) == Keep(a) + Keep(b)
  {
    if a == [] {
      assert a + b == b;
    } else {
      assert (a + b)[1..] == a[1..] + b;
      KeepAppend(a[1..], b);
    }
  }

  lemma {:induction false} SlashedAppend(a: seq<bytes>, b: seq<bytes>)
    ensures Slashed(a + b) == Slashed(a) + Slashed(b)
  {
    if a == [] {
      assert a + b == b;
    } else {
      assert (a + b)[1..] == a[1..] + b;
      SlashedAppend(a[1..], b);
      assert [SLASH] + a[0] + (Slashed(a[1..]) + Slashed(b)) == ([SLASH] + a[0] + Slashed(a[1..])) + Slashed(b);
    }
  }

  predicate PlainName(c: bytes)
  {
    IsKept(c) && c != DOTDOT && SLASH !in c
  }

  predicate AllPlain(cs: seq<bytes>)
  {
    forall i :: 0 <= i < |cs| ==> PlainName(cs[i])
  }

  lemma {:induction false} SplitHasNoSlash(s: bytes)
    ensures forall i :: 0 <= i < |Split(s)| ==> SLASH !in Split(s)[i]
    decreases |s|
  {
    var n := FirstSlash(s);
    if n < |s| {
      SplitHasNoSlash(s[n + 1..]);
      assert forall i :: 0 < i < |Split(s)| ==> Split(s)[i] == Split(s[n + 1..])[i - 1];
    }
  }

  lemma {:induction false} KeepSubset(cs: seq<bytes>)
    ensures forall i :: 0 <= i < |Keep(cs)| ==> Keep(cs)[i] in cs && IsKept(Keep(cs)[i])
  {
    if cs != [] {
      KeepSubset(cs[1..]);
      assert forall x :: x in cs[1..] ==> x in cs;
    }
  }

  /** The kept components of an accepted path are plain names. */
  lemma KeptPlain(s: bytes)
    requires !HasDotDot(s)
    ensures AllPlain(Kept(s))
  {
    SplitHasNoSlash(s);
    KeepSubset(Split(s));
  }

  lemma NoSlashSplit(c: bytes)
    requires SLASH !in c
    ensures Split(c) == [c]
  {
  }

  lemma {:induction false} FirstSlashAfter(c: bytes, rest: bytes)
    requires SLASH !in c && (rest == [] || rest[0] == SLASH)
    ensures FirstSlash(c + rest) == |c|
  {
    if c == [] {
      assert c + rest == rest;
    } else {
      assert (c + rest)[1..] == c[1..] + rest;
      assert SLASH !in c[1..];
      FirstSlashAfter(c[1..], rest);
    }
  }

  lemma SplitBehind(a: bytes, b: bytes)
    requires SLASH !in a
    ensures Split(a + ([SLASH] + b)) == [a] + Split(b)
  {
    var s := a + ([SLASH] + b);
    FirstSlashAfter(a, [SLASH] + b);
    SplitAt(s, |a|);
    hide Split, FirstSlash;
    assert s[..|a|] == a && s[|a| + 1..] == b;
  }

  lemma {:induction false} SplitAfterFirst(cs: seq<bytes>)
    requires cs != [] && forall i :: 0 <= i < |cs| ==> SLASH !in cs[i]
    ensures Split(cs[0] + Slashed(cs[1..])) == cs
    decreases |cs|
  {
    hide Split, FirstSlash;
    var more := cs[1..];
    if more == [] {
      assert cs[0] + Slashed(more) == cs[0];
      NoSlashSplit(cs[0]);
    } else {
      var rest := more[0] + Slashed(more[1..]);
      assert Slashed(more) == [SLASH] + rest;
      hide Slashed;
      SplitBehind(cs[0], rest);
      SplitAfterFirst(more);
    }
  }

  /** Splitting what was joined gives the components back, after one empty piece. */
  lemma SplitSlashed(cs: seq<bytes>)
    requires cs != [] && forall i :: 0 <= i < |cs| ==> SLASH !in cs[i]
    ensures Split(Slashed(cs)) == [[]] + cs
  {
    var s, rest := Slashed(cs), cs[0] + Slashed(cs[1..]);
    assert s == [SLASH] + rest;
    hide Slashed, Split;
    SplitAfterFirst(cs);
    LeadingSlash(s, rest);
  }

  lemma LeadingSlash(s: bytes, rest: bytes)
    requires s == [SLASH] + rest
    ensures Split(s) == [[]] + Split(rest)
  {
    assert s[..0] == [] && s[1..] == rest;
    SplitAt(s, 0);
  }

  lemma {:induction false} KeepPlain(cs: seq<bytes>)
    requires AllPlain(cs)
    ensures Keep(cs) == cs
  {
    if cs != [] {
      assert PlainName(cs[0]);
      KeepPlain(cs[1..]);
    }
  }

  lemma KeptJoin(cs: seq<bytes>)
    requires AllPlain(cs)
    ensures Kept(Join(cs)) == cs && !HasDotDot(Join(cs))
  {
    if cs == [] {
      SplitAt([SLASH], 0);
      assert Split([SLASH]) == [[], []];
      assert Keep([[], []]) == Keep([[]]) == [];
    } else {
      assert forall i :: 0 <= i < |cs| ==> PlainName(cs[i]);
      SplitSlashed(cs);
      KeepPlain(cs);
      assert ([[]] + cs)[1..] == cs;
    }
  }

  /** A leading slash makes no difference. */
  lemma LeadingSlashIgnored(relative: bytes, outSize: nat)
    ensures BuildPath([SLASH] + relative, outSize) == BuildPath(relative, outSize)
  {
    LeadingSlash([SLASH] + relative, relative);
    KeepAppend([[]], Split(relative));
    assert Keep([[]]) == Keep([[]][1..]) == [];
  }

  /** The normaliser leaves its own output alone. */
  lemma BuildPathIdempotent(relative: bytes, outSize: nat)
    requires BuildPath(relative, outSize).Some?
    ensures BuildPath(BuildPath(relative, outSize).value.path, outSize) == BuildPath(relative, outSize)
  {
    KeptPlain(relative);
    KeptJoin(Kept(relative));
  }

  // ---- The tokeniser -------------------------------------------------------------------------

  /** One turn of the loop: the pieces of `relative` from offset `r` on. */
  lemma SkipSlash(relative: bytes, r: nat)
    requires r < |relative| && relative[r] == SLASH
    ensures Split(relative[r..]) == [[]] + Split(relative[r + 1..])
  {
    assert relative[r..][1..] == relative[r + 1..];
    assert relative[r..][..0] == [];
  }

  lemma TakeSegment(relative: bytes, r: nat, n: nat)
    requires r < |relative| && n == FirstSlash(relative[r..])
    ensures Split(relative[r..]) == [relative[r..r + n]]
                                    + (if r + n < |relative| then Split(relative[r + n + 1..]) else [])
  {
    assert relative[r..][..n] == relative[r..r + n];
    if r + n < |relative| {
      assert relative[r..][n + 1..] == relative[r + n + 1..];
    } else {
      assert relative[r..r + n] == relative[r..];
    }
  }

  /** The separator, the component and the terminator, at the end of the path so far. */
  method AppendComponent(out: array<byte>, outSize: nat, start: nat, seg: bytes, ghost kept: seq<bytes>)
    returns (used: nat)
    requires outSize <= out.Length && 1 <= start
    requires start + (if start > 1 then 1 else 0) + |seg| < outSize
    requires out[..start] == Join(kept) && (start > 1 <==> kept != []) && seg != []
    modifies out
    ensures used == start + (if start > 1 then 1 else 0) + |seg|
    ensures out[..used] == Join(kept + [seg]) && out[used] == 0
    ensures out[outSize..] == old(out[outSize..])
  {
    used := start;
    if used > 1 {
      out[used] := SLASH;
      used := used + 1;
    }
    ghost var before := out[..used];
    for i := 0 to |seg|
      invariant out[..used + i] == before + seg[..i]
      invariant out[outSize..] == old(out[outSize..])
    {
      out[used + i] := seg[i];
      assert seg[..i + 1] == seg[..i] + [seg[i]];
      assert out[..used + i + 1] == out[..used + i] + [seg[i]];
    }
    used := used + |seg|;
    assert seg[..|seg|] == seg;
    out[used] := 0;
    assert out[..used] == before + seg;
    SlashedAppend(kept, [seg]);
    assert Slashed([seg]) == [SLASH] + seg;
    if kept == [] {
      assert before == [SLASH];
    } else {
      assert before == Slashed(kept) + [SLASH];
    }
  }

  /** What one non-empty piece of the path adds to the components. */
  function Added(seg: bytes): seq<bytes>
  {
    if seg == DOT then [] else [seg]
  }

  /** The buffer holds the components so far, terminated, with room left. */
  ghost predicate Holds(out: array<byte>, outSize: nat, used: nat, storage: Storage, kept: seq<bytes>)
    reads out
  {
    && 1 <= used < outSize <= out.Length
    && out[..used] == Join(kept) && out[used] == 0
    && (used > 1 <==> kept != [])
    && storage == StorageOf(kept)
  }

  /** The body of the loop for one piece: refuse `..`, skip `.`, or append. */
  method PlaceSegment(
      out: array<byte>, outSize: nat, start: nat, before: Storage, seg: bytes, sawComponent: bool,
      ghost kept: seq<bytes>)
    returns (ok: bool, used: nat, storage: Storage)
    requires Holds(out, outSize, start, before, kept) && seg != [] && (sawComponent <==> kept != [])
    modifies out
    ensures ok <==> seg != DOTDOT && |Join(kept + Added(seg))| < outSize
    ensures ok ==> Holds(out, outSize, used, storage, kept + Added(seg))
    ensures out[outSize..] == old(out[outSize..])
  {
    used, storage := start, before;
    assert |Join(kept)| == start;
    if seg == DOTDOT {
      return false, used, storage;
    }
    if seg == DOT {
      assert kept + [] == kept;
      return true, used, storage;
    }
    SlashedAppend(kept, [seg]);
    assert Slashed([seg]) == [SLASH] + seg;
    assert |Join(kept + [seg])| == used + (if used > 1 then 1 else 0) + |seg|;
    if !sawComponent && seg == SD {
      storage := Sd;
    }
    if used + (if used > 1 then 1 else 0) + |seg| >= outSize {
      return false, used, storage;
    }
    used := AppendComponent(out, outSize, used, seg, kept);
    ok := true;
  }

  /** `kept` is what the consumed part of the path contributes; `pieces` are still to come. */
  ghost predicate Progress(relative: bytes, kept: seq<bytes>, pieces: seq<bytes>)
  {
    Kept(relative) == kept + Keep(pieces) && (HasDotDot(relative) <==> DOTDOT in pieces)
  }

  lemma ProgressStarts(relative: bytes)
    ensures Progress(relative, [], Split(relative[0..]))
  {
    assert relative[0..] == relative;
    assert [] + Keep(Split(relative)) == Keep(Split(relative));
  }

  lemma ProgressOverEmpty(relative: bytes, kept: seq<bytes>, rest: seq<bytes>)
    requires Progress(relative, kept, [[]] + rest)
    ensures Progress(relative, kept, rest)
  {
    assert ([[]] + rest)[1..] == rest;
  }

  /** Taking one piece; a refused piece, or a prefix that does not fit, refuses the whole path. */
  lemma ProgressOverSegment(relative: bytes, kept: seq<bytes>, seg: bytes, rest: seq<bytes>, outSize: nat)
    requires Progress(relative, kept, [seg] + rest) && seg != []
    ensures seg != DOTDOT ==> Progress(relative, kept + Added(seg), rest)
    ensures seg == DOTDOT || |Join(kept + Added(seg))| >= outSize ==> BuildPath(relative, outSize) == None
  {
    var pieces := [seg] + rest;
    assert pieces[0] == seg && pieces[1..] == rest;
    assert Keep(pieces) == Added(seg) + Keep(rest);
    assert kept + (Added(seg) + Keep(rest)) == (kept + Added(seg)) + Keep(rest);
    SlashedAppend(kept + Added(seg), Keep(rest));
  }

  lemma ProgressEnds(relative: bytes, kept: seq<bytes>, pieces: seq<bytes>, outSize: nat)
    requires Progress(relative, kept, pieces) && (pieces == [] || pieces == [[]])
    ensures !HasDotDot(relative) && Kept(relative) == kept
  {
    assert Keep(pieces) == [];
    assert kept + [] == kept;
  }

  /** `build_path`. */
  method BuildPathInPlace(relative: bytes, out: array<byte>, outSize: nat)
    returns (ok: bool, storage: Storage, used: nat)
    requires outSize <= out.Length
    modifies out
    ensures ok <==> BuildPath(relative, outSize).Some?
    ensures ok ==> used < outSize && out[used] == 0
                   && BuildPath(relative, outSize) == Some(Built(out[..used], storage))
    ensures out[outSize..] == old(out[outSize..])
  {
    hide Split, FirstSlash, Join, StorageOf, Progress, Kept, HasDotDot, Added;
    var r := 0;
    used := 1;
    storage := Nand;
    if outSize < 2 {
      return false, storage, used;
    }
    out[0] := SLASH;
    out[1] := 0;
    EmptyHolds(out, outSize);
    var sawComponent := false;
    ghost var kept: seq<bytes> := [];
    ghost var pieces := Split(relative[0..]);
    ProgressStarts(relative);
    EmptyTail(relative);
    while r < |relative|
      invariant r <= |relative| && (r < |relative| ==> pieces == Split(relative[r..]))
      invariant r == |relative| ==> pieces == [] || pieces == [[]]
      invariant Holds(out, outSize, used, storage, kept) && (sawComponent <==> kept != [])
      invariant Progress(relative, kept, pieces)
      invariant out[outSize..] == old(out[outSize..])
    {
      while r < |relative| && relative[r] == SLASH
        invariant r <= |relative| && pieces == Split(relative[r..])
        invariant Holds(out, outSize, used, storage, kept)
        invariant Progress(relative, kept, pieces)
        invariant out[outSize..] == old(out[outSize..])
      {
        SkipSlash(relative, r);
        pieces := Split(relative[r + 1..]);
        ProgressOverEmpty(relative, kept, pieces);
        r := r + 1;
      }
      if r == |relative| {
        break;
      }
      var seglen := FirstSlash(relative[r..]);
      var seg := relative[r..r + seglen];
      SegmentNonEmpty(relative, r);
      TakeSegment(relative, r, seglen);
      pieces := if r + seglen < |relative| then Split(relative[r + seglen + 1..]) else [];
      ProgressOverSegment(relative, kept, seg, pieces, outSize);
      ok, used, storage := PlaceSegment(out, outSize, used, storage, seg, sawComponent, kept);
      if !ok {
        return;
      }
      AddedGrows(kept, seg);
      kept := kept + Added(seg);
      sawComponent := sawComponent || seg != DOT;
      r := if r + seglen < |relative| then r + seglen + 1 else |relative|;
    }
    ProgressEnds(relative, kept, pieces, outSize);
    ok := true;
  }

  lemma AddedGrows(kept: seq<bytes>, seg: bytes)
    ensures kept + Added(seg) != [] <==> kept != [] || seg != DOT
  {
  }

  lemma EmptyHolds(out: array<byte>, outSize: nat)
    requires 2 <= outSize <= out.Length && out[0] == SLASH && out[1] == 0
    ensures Holds(out, outSize, 1, Nand, [])
  {
    assert out[..1] == [SLASH];
  }

  lemma EmptyTail(relative: bytes)
    ensures Split(relative[|relative|..]) == [[]]
  {
    assert relative[|relative|..] == [];
  }

  lemma SegmentNonEmpty(relative: bytes, r: nat)
    requires r < |relative| && relative[r] != SLASH
    ensures FirstSlash(relative[r..]) > 0
  {
  }
}
