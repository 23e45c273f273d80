/** What a writing request must look like to pass the checks: its path, its storage and its permission. */
module RequestChecks {
  import opened Bytes
  import opened Paths
  import opened FileSystem
  import opened Uploads
  import opened UploadTable

  // ---- Path and storage ----------------------------------------------------------------------

  /** The path is on the card: its first component that counts is `sd`. */
  predicate OnCard(relative: bytes)
  {
    Kept(relative) != [] && Kept(relative)[0] == [0x73, 0x64]
  }

  /** The storage that the request asks for: none, `sd` for a path on the card, `nand` for any other. */
  predicate StorageAgrees(relative: bytes, desire: Option<bytes>)
  {
    || desire == None || desire == Some([])
    || (desire == Some([0x73, 0x64]) && OnCard(relative))
    || (desire == Some([0x6E, 0x61, 0x6E, 0x64]) && !OnCard(relative))
  }

  /** A path without a `..` component, on the storage that was asked for, and a card that is there. */
  predicate PathAccepted(relative: bytes, desire: Option<bytes>, sdMounted: bool)
  {
    && [0x2E, 0x2E] !in Split(relative)
    && StorageAgrees(relative, desire)
    && (OnCard(relative) ==> sdMounted)
  }

  /** Exactly which requests resolve, and to what. */
  lemma ResolveExactly(relative: bytes, desire: Option<bytes>, sdMounted: bool, path: bytes)
    ensures Resolve(relative, desire, sdMounted) == Some(path)
            <==> PathAccepted(relative, desire, sdMounted) && path == Canonical(relative) && |path| < 4096
  {
    hide Split, Keep, Join;
  }

  /** `sd/x` is for the card and `x` is not. */
  lemma StorageAtInputs()
    ensures Resolve([0x73, 0x64, 0x2F, 0x78], Some([0x73, 0x64]), true) == Some([0x2F, 0x73, 0x64, 0x2F, 0x78])
    ensures Resolve([0x78], Some([0x73, 0x64]), true) == None
  {
    var sd, x, both := [0x73, 0x64], [0x78], [0x73, 0x64, 0x2F, 0x78];
    CardPath();
    PlainPath();
    hide Kept, Split, Canonical, Resolve;
    ResolveExactly(both, Some(sd), true, Canonical(both));
    RefusedPath(x, Some(sd), true);
  }

  lemma CardPath()
    ensures var both := [0x73, 0x64, 0x2F, 0x78];
            && OnCard(both) && [0x2E, 0x2E] !in Split(both) && Canonical(both) == [0x2F, 0x73, 0x64, 0x2F, 0x78]
  {
    var sd, x := [0x73, 0x64], [0x78];
    KeptByComponent(sd, x);
    PlainPath();
    PathOfComponents([sd], x);
    hide Split, Keep, Slashed;
    assert sd + ([0x2F] + x) == [0x73, 0x64, 0x2F, 0x78] && sd[0] != 0x2E;
    assert [sd] + [x] == [sd, x];
    assert ([0x2F] + sd) + ([0x2F] + x) == [0x2F, 0x73, 0x64, 0x2F, 0x78];
  }

  lemma PlainPath()
    ensures Kept([0x78]) == [[0x78]] && [0x2E, 0x2E] !in Split([0x78]) && !OnCard([0x78])
  {
    KeptByComponent([0x78], []);
    hide Split, Keep;
    assert [0x78][0] != 0x2E;
  }

  lemma RefusedPath(relative: bytes, desire: Option<bytes>, sdMounted: bool)
    requires !PathAccepted(relative, desire, sdMounted)
    ensures Resolve(relative, desire, sdMounted) == None
  {
    hide Resolve, PathAccepted;
    match Resolve(relative, desire, sdMounted)
    case None =>
    case Some(path) => ResolveExactly(relative, desire, sdMounted, path);
  }

  /** The canonical path, and with it `OnCard`, component by component: a slash separates, a component that
      is empty or `.` does not count. */
  lemma KeptByComponent(a: bytes, b: bytes)
    ensures Kept(a + ([0x2F] + b)) == Kept(a) + Kept(b)
    ensures [0x2E, 0x2E] in Split(a + ([0x2F] + b)) <==> [0x2E, 0x2E] in Split(a) || [0x2E, 0x2E] in Split(b)
    ensures 0x2F !in a ==> Kept(a) == (if a == [] || a == [0x2E] then [] else [a])
    ensures 0x2F !in a ==> ([0x2E, 0x2E] in Split(a) <==> a == [0x2E, 0x2E])
  {
    SplitAtSlash(a, b);
    KeepAppend(Split(a), Split(b));
    if 0x2F !in a {
      NoSlashSplit(a);
      OneKept(a);
    }
    hide Split, Keep;
  }

  lemma OneKept(c: bytes)
    ensures Keep([c]) == if c == [] || c == [0x2E] then [] else [c]
  {
    assert Keep([c][1..]) == [];
  }

  lemma {:induction false} SplitAtSlash(a: bytes, b: bytes)
    ensures Split(a + ([SLASH] + b)) == Split(a) + Split(b)
    decreases |a|
  {
    hide Split;
    var n := FirstSlash(a);
    hide FirstSlash;
    if n == |a| {
      SplitBehind(a, b);
      NoSlashSplit(a);
    } else {
      var front, rest := a[..n], a[n + 1..];
      CutAt(a, n, b);
      SplitAtSlash(rest, b);
      SplitBehind(front, rest + ([SLASH] + b));
      SplitBehind(front, rest);
      Assoc([front], Split(rest), Split(b));
    }
  }

  lemma CutAt(a: bytes, n: nat, b: bytes)
    requires n < |a| && a[n] == SLASH
    ensures a == a[..n] + ([SLASH] + a[n + 1..])
    ensures a + ([SLASH] + b) == a[..n] + ([SLASH] + (a[n + 1..] + ([SLASH] + b)))
  {
  }

  /** The absolute path of a list of components: a slash in front of each, or the root. */
  lemma PathOfComponents(cs: seq<bytes>, c: bytes)
    ensures Join([]) == [0x2F] && Join([c]) == [0x2F] + c
    ensures cs != [] ==> Join(cs + [c]) == Join(cs) + ([0x2F] + c)
  {
    SlashedAppend(cs, [c]);
    assert Slashed([c][1..]) == [];
    assert [0x2F] + c + [] == [0x2F] + c;
  }

  // ---- Permission ----------------------------------------------------------------------------

  predicate AllSpaces(s: bytes)
  {
    forall i :: 0 <= i < |s| ==> s[i] == 0x20 || 0x09 <= s[i] <= 0x0D
  }

  predicate AllOctal(s: bytes)
  {
    forall i :: 0 <= i < |s| ==> 0x30 <= s[i] <= 0x37
  }

  /** The value of octal digits, the last one counting once. */
  function Octal(s: bytes): nat
    requires AllOctal(s)
  {
    if s == [] then 0 else 8 * Octal(s[..|s| - 1]) + (s[|s| - 1] - 0x30)
  }

  /** What `strtoul` makes of a sign and a value: too large a value is the largest one, a minus wraps. */
  function StrToUl(sign: bytes, v: nat): nat
  {
    if v >= 0x1_0000_0000 then 0xFFFF_FFFF
    else if sign == [0x2D] then (0x1_0000_0000 - v) % 0x1_0000_0000
    else v
  }

  /** The text is spaces, an optional sign, and at least one octal digit, with nothing behind. */
  predicate PermText(s: bytes, spaces: bytes, sign: bytes, digits: bytes)
  {
    && s == spaces + (sign + digits) && AllSpaces(spaces) && (sign == [] || sign == [0x2B] || sign == [0x2D])
    && digits != [] && AllOctal(digits)
  }

  lemma {:induction false} OctalFrom(s: bytes, acc: nat)
    ensures ParseOctalDigits(s, acc).Some? <==> AllOctal(s)
    decreases s
  {
    if s != [] {
      assert forall i :: 0 < i < |s| ==> s[i] == s[1..][i - 1];
      assert forall i :: 0 <= i < |s[1..]| ==> s[1..][i] == s[i + 1];
      if 0x30 <= s[0] <= 0x37 {
        OctalFrom(s[1..], 8 * acc + (s[0] - 0x30));
      }
    }
  }

  lemma {:induction false} OctalSnoc(s: bytes, d: byte, acc: nat)
    requires AllOctal(s) && 0x30 <= d <= 0x37
    ensures AllOctal(s + [d]) && ParseOctalDigits(s, acc).Some?
    ensures ParseOctalDigits(s + [d], acc) == Some(8 * ParseOctalDigits(s, acc).value + (d - 0x30))
    decreases s
  {
    OctalFrom(s, acc);
    if s == [] {
      assert [] + [d] == [d];
      OneOctal(d, acc);
    } else {
      assert (s + [d])[1..] == s[1..] + [d] && (s + [d])[0] == s[0];
      OctalSnoc(s[1..], d, 8 * acc + (s[0] - 0x30));
    }
  }

  lemma OneOctal(d: byte, acc: nat)
    requires 0x30 <= d <= 0x37
    ensures ParseOctalDigits([d], acc) == Some(8 * acc + (d - 0x30))
  {
    assert [d][1..] == [];
  }

  lemma {:induction false} OctalValue(s: bytes)
    requires AllOctal(s)
    ensures ParseOctalDigits(s, 0) == Some(Octal(s))
    decreases |s|
  {
    if s != [] {
      var n := |s| - 1;
      OctalValue(s[..n]);
      OctalSnoc(s[..n], s[n], 0);
      assert s == s[..n] + [s[n]];
    }
  }

  lemma {:induction false} SpacesSkipped(spaces: bytes, rest: bytes)
    requires AllSpaces(spaces) && (rest == [] || !IsSpace(rest[0]))
    ensures SkipSpaces(spaces + rest) == rest
    decreases spaces
  {
    if spaces == [] {
      assert [] + rest == rest;
    } else {
      assert (spaces + rest)[1..] == spaces[1..] + rest && (spaces + rest)[0] == spaces[0];
      SpacesSkipped(spaces[1..], rest);
    }
  }

  lemma {:induction false} LeadingSpaces(s: bytes) returns (spaces: bytes)
    ensures AllSpaces(spaces) && s == spaces + SkipSpaces(s)
    ensures SkipSpaces(s) == [] || !IsSpace(SkipSpaces(s)[0])
    decreases s
  {
    if s != [] && IsSpace(s[0]) {
      var more := LeadingSpaces(s[1..]);
      spaces := [s[0]] + more;
      assert s == [s[0]] + s[1..];
    } else {
      spaces := [];
    }
  }

  /** Any text of that shape is read as the value of its digits, if the mode is not too large. */
  lemma PermRead(s: bytes, spaces: bytes, sign: bytes, digits: bytes)
    requires PermText(s, spaces, sign, digits)
    ensures var v := StrToUl(sign, Octal(digits));
            ParsePerm(s) == if v <= 0xFFF then Some(v) else None
  {
    var rest := sign + digits;
    SpacesSkipped(spaces, rest);
    OctalValue(digits);
    if sign == [] {
      assert rest == digits;
    } else {
      assert rest[1..] == digits && rest[0] == sign[0];
    }
    hide ParseOctalDigits, Octal, SkipSpaces;
  }

  /** A text that is read has that shape. */
  lemma PermShape(s: bytes) returns (spaces: bytes, sign: bytes, digits: bytes)
    requires ParsePerm(s).Some?
    ensures PermText(s, spaces, sign, digits)
  {
    spaces := LeadingSpaces(s);
    var rest := SkipSpaces(s);
    sign := if rest != [] && (rest[0] == 0x2B || rest[0] == 0x2D) then rest[..1] else [];
    digits := rest[|sign|..];
    OctalFrom(digits, 0);
    assert rest == sign + digits;
    hide ParseOctalDigits, SkipSpaces, AllOctal, AllSpaces;
  }

  /** Exactly which permissions are read, and as what mode. */
  lemma PermExactly(s: bytes, mode: nat)
    ensures ParsePerm(s) == Some(mode)
            <==> && mode <= 0xFFF
                 && exists spaces, sign, digits ::
                      PermText(s, spaces, sign, digits) && StrToUl(sign, Octal(digits)) == mode
  {
    hide ParsePerm, Octal, StrToUl, AllOctal, AllSpaces;
    if ParsePerm(s) == Some(mode) {
      var spaces, sign, digits := PermShape(s);
      PermRead(s, spaces, sign, digits);
    }
    if spaces, sign, digits :| PermText(s, spaces, sign, digits) && StrToUl(sign, Octal(digits)) == mode {
      PermRead(s, spaces, sign, digits);
    }
  }

  /** The permission of a request: none, an empty one, or one that can be read. */
  ghost predicate PermAccepted(perm: Option<bytes>)
  {
    || perm == None || perm == Some([])
    || exists spaces, sign, digits ::
         PermText(perm.value, spaces, sign, digits) && StrToUl(sign, Octal(digits)) <= 0xFFF
  }

  lemma PermOfExactly(perm: Option<bytes>)
    ensures PermOf(perm).Some? <==> PermAccepted(perm)
    ensures PermOf(perm) == Some(None) <==> perm == None || perm == Some([])
    ensures forall mode: nat :: PermOf(perm) == Some(Some(mode))
                                <==> perm.Some? && perm.value != [] && ParsePerm(perm.value) == Some(mode)
  {
    hide ParsePerm, Octal;
    if perm.Some? {
      if ParsePerm(perm.value).Some? {
        PermExactly(perm.value, ParsePerm(perm.value).value);
      }
      if spaces, sign, digits :|
        PermText(perm.value, spaces, sign, digits) && StrToUl(sign, Octal(digits)) <= 0xFFF
      {
        PermRead(perm.value, spaces, sign, digits);
      }
    }
  }

  // ---- BEGIN ---------------------------------------------------------------------------------

  /** Exactly when BEGIN succeeds: a slot is free or freed by the retry, the permission and the path are
      acceptable, the path as sent and the temporary name fit their buffers, and the temporary file opens. */
  lemma BeginSucceeds(st: Store, id: u32, relative: bytes, desire: Option<bytes>, perm: Option<bytes>, env: Env)
    requires TableValid(st.slots)
    ensures var temp := Canonical(relative) + [0x2E, 0x70, 0x61, 0x72, 0x74];
            Begin(st, id, relative, desire, perm, env).1
            <==> && (Find(st.slots, id) < 16 || FirstFree(st.slots) < 16)
                 && PermAccepted(perm) && PathAccepted(relative, desire, env.sdMounted)
                 && |relative| < 4096 && |temp| < 4096
                 && OpenWrite(Abort(st, id, env).0.fs, temp, env.openOk).Some?
  {
    BeginOnTarget(st, id, relative, desire, perm, env);
    PermOfExactly(perm);
    ResolveExactly(relative, desire, env.sdMounted, Canonical(relative));
    hide Begin, Abort, OpenWrite, PermOf, PermAccepted, PathAccepted, Canonical, TableValid, Resolve, Find, FirstFree;
    if Resolve(relative, desire, env.sdMounted).Some? {
      ResolveExactly(relative, desire, env.sdMounted, Resolve(relative, desire, env.sdMounted).value);
    }
  }
}
