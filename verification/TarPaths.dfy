/** Path policy of the importer: what a normalised path looks like, to Swift and as bytes. */
module TarPaths {
  import opened HostTypes
  import opened SwiftText
  import opened TarNumbers
  import opened TarReader

  // ---------------------------------------------------------------- components

  /** A component as a path has it: slashes in it, if any, are not Characters of their own. */
  ghost predicate Component(u: Library, c: Bytes) {
    c != [] && forall i :: 0 <= i < |c| && c[i] == SLASH ==> !Lone(u, c, i)
  }

  /** Components that keep apart when they are joined with slashes. */
  ghost predicate Separable(u: Library, cs: seq<Bytes>) {
    && (forall i :: 0 <= i < |cs| ==> Component(u, cs[i]))
    && (forall i :: 0 < i < |cs| ==> !Extends(u, cs[i]))
    && (forall i :: 0 <= i < |cs| - 1 ==> !Prepends(u, cs[i]))
  }

  lemma FindAt(u: Library, b: Bytes, c: Byte, k: nat)
    requires k <= |b| && (k < |b| ==> b[k] == c && Lone(u, b, k))
    requires forall j :: 0 <= j < k ==> !(b[j] == c && Lone(u, b, j))
    ensures FindLone(u, b, c, 0) == k
  {
  }

  /** The first slash of a joined path is the one behind its first component. */
  lemma FirstSlash(u: Library, c: Bytes, rest: Bytes)
    requires Component(u, c) && !Prepends(u, c) && !Extends(u, rest)
    ensures FindLone(u, c + [SLASH] + rest, SLASH, 0) == |c|
  {
    var b := c + [SLASH] + rest;
    SlashBetween(u, c, rest);
    SlashesInside(u, c, [SLASH] + rest);
    Regroup(c, [SLASH], rest);
    hide Extends, Prepends, Component, Lone;
    FindAt(u, b, SLASH, |c|);
  }

  lemma SlashBetween(u: Library, c: Bytes, rest: Bytes)
    requires !Prepends(u, c) && !Extends(u, rest)
    ensures var b := c + [SLASH] + rest; b[|c|] == SLASH && Lone(u, b, |c|)
  {
    hide Extends, Prepends;
    var b := c + [SLASH] + rest;
    assert b[..|c|] == c && b[|c| + 1..] == rest;
  }

  /** The slashes of a component stay joined when ASCII follows. */
  lemma SlashesInside(u: Library, c: Bytes, rest: Bytes)
    requires Component(u, c) && (rest == [] || rest[0] < ASCII)
    ensures forall j :: 0 <= j < |c| && (c + rest)[j] == SLASH ==> !Lone(u, c + rest, j)
  {
    hide Lone;
    forall j | 0 <= j < |c| && (c + rest)[j] == SLASH
      ensures !Lone(u, c + rest, j)
    {
      LoneFront(u, c, rest, j);
    }
  }

  lemma NoSlash(u: Library, c: Bytes)
    requires Component(u, c)
    ensures FindLone(u, c, SLASH, 0) == |c|
  {
  }

  /** Where a joined path begins. */
  lemma JoinExtends(u: Library, cs: seq<Bytes>)
    requires Separable(u, cs) && cs != []
    ensures JoinPath(cs) != [] && Extends(u, JoinPath(cs)) == Extends(u, cs[0])
  {
    hide Extends, Prepends;
    assert Component(u, cs[0]);
    if |cs| > 1 {
      var rest := [SLASH] + JoinPath(cs[1..]);
      Regroup(cs[0], [SLASH], JoinPath(cs[1..]));
      ExtendsFront(u, cs[0], rest);
    }
  }

  /** Splitting a joined path gives its components back. */
  lemma {:induction false} SplitJoin(u: Library, cs: seq<Bytes>)
    requires Separable(u, cs)
    ensures Components(u, JoinPath(cs)) == cs
    decreases |cs|
  {
    hide Lone, Extends, Prepends;
    if |cs| == 1 {
      NoSlash(u, cs[0]);
      assert cs[0][..|cs[0]|] == cs[0];
    } else if |cs| > 1 {
      var c, rest := cs[0], JoinPath(cs[1..]);
      SplitJoin(u, cs[1..]);
      JoinExtends(u, cs[1..]);
      assert !Extends(u, cs[1..][0]);
      FirstSlash(u, c, rest);
      var path := c + [SLASH] + rest;
      assert path[..|c|] == c && path[|c| + 1..] == rest;
    }
  }

  lemma OneComponent(u: Library, path: Bytes, k: nat)
    requires k == FindLone(u, path, SLASH, 0) && 0 < k
    ensures Component(u, path[..k]) && (k < |path| ==> !Prepends(u, path[..k]) && !Extends(u, path[k + 1..]))
    ensures Extends(u, path[..k]) == Extends(u, path)
  {
    hide Extends, Prepends;
    var c, rest := path[..k], path[k..];
    assert k < |path| ==> !Prepends(u, c) && !Extends(u, path[k + 1..]);
    hide Lone;
    assert path == c + rest;
    forall i | 0 <= i < k && c[i] == SLASH
      ensures !Lone(u, c, i)
    {
      assert path[i] == SLASH;
      LoneFront(u, c, rest, i);
    }
    ExtendsFront(u, c, rest);
  }

  lemma {:induction false} SplitSeparable(u: Library, path: Bytes)
    ensures Separable(u, Components(u, path))
    ensures Components(u, path) != [] && !Extends(u, path) ==> !Extends(u, Components(u, path)[0])
    decreases |path|
  {
    hide Lone, Extends, Prepends, Component;
    if path != [] {
      var k := FindLone(u, path, SLASH, 0);
      var rest := if k < |path| then Components(u, path[k + 1..]) else [];
      if k < |path| {
        SplitSeparable(u, path[k + 1..]);
        SlashStandsAlone(u, path, k);
      }
      if k > 0 {
        OneComponent(u, path, k);
        SeparableCons(u, path[..k], rest);
      }
    }
  }

  lemma SeparableCons(u: Library, c: Bytes, cs: seq<Bytes>)
    requires Component(u, c) && Separable(u, cs) && (cs != [] ==> !Prepends(u, c) && !Extends(u, cs[0]))
    ensures Separable(u, [c] + cs)
  {
    hide Component, Prepends, Extends;
  }

  lemma SlashStandsAlone(u: Library, path: Bytes, k: nat)
    requires k < |path| && Lone(u, path, k)
    ensures !Extends(u, path[k + 1..])
  {
  }

  lemma {:induction false} DropFirstKeeps(u: Library, cs: seq<Bytes>)
    requires Separable(u, cs)
    ensures Separable(u, DropFirst(cs)) && (DropFirst(cs) != [] ==> DropFirst(cs)[0] != [DOT])
    ensures forall c :: c in DropFirst(cs) ==> c in cs
    ensures forall c :: c in cs && c != [DOT] ==> c in DropFirst(cs)
  {
    hide Component, Extends, Prepends;
    if cs != [] && cs[0] == [DOT] {
      assert forall i | 0 <= i < |cs| - 1 :: cs[1..][i] == cs[i + 1];
      DropFirstKeeps(u, cs[1..]);
    }
  }

  lemma {:induction false} DropLastKeeps(u: Library, cs: seq<Bytes>)
    requires Separable(u, cs)
    ensures Separable(u, DropLast(cs)) && DropLast(cs) <= cs
    ensures forall c :: c in cs && c != [DOT] ==> c in DropLast(cs)
    decreases |cs|
  {
    hide Component, Extends, Prepends;
    if cs != [] && cs[|cs| - 1] == [DOT] {
      DropLastKeeps(u, cs[..|cs| - 1]);
    }
  }

  lemma {:induction false} JoinHas(cs: seq<Bytes>, b: Byte)
    requires b in JoinPath(cs) && b != SLASH
    ensures exists i :: 0 <= i < |cs| && b in cs[i]
    decreases |cs|
  {
    if |cs| > 1 && b !in cs[0] {
      assert b in JoinPath(cs[1..]);
      JoinHas(cs[1..], b);
      var i :| 0 <= i < |cs[1..]| && b in cs[1..][i];
      assert b in cs[i + 1];
    }
  }

  /** What follows the first slash. */
  function AfterSlash(u: Library, path: Bytes): Bytes {
    var k := FindLone(u, path, SLASH, 0);
    if k < |path| then path[k + 1..] else []
  }

  /** The component before the first slash, unless it is empty. */
  function FirstComponent(u: Library, path: Bytes): seq<Bytes> {
    var k := FindLone(u, path, SLASH, 0);
    if k == 0 then [] else [path[..k]]
  }

  lemma ComponentsStep(u: Library, path: Bytes)
    ensures path == [] ==> Components(u, path) == []
    ensures path != [] ==> Components(u, path) == FirstComponent(u, path) + Components(u, AfterSlash(u, path))
  {
  }

  lemma {:induction false} SplitHas(u: Library, path: Bytes, i: nat, b: Byte)
    requires i < |Components(u, path)| && b in Components(u, path)[i]
    ensures b in path
    decreases |path|
  {
    ComponentsStep(u, path);
    hide FindLone, Components, Lone;
    var k := FindLone(u, path, SLASH, 0);
    if k == 0 || i > 0 {
      SplitHas(u, AfterSlash(u, path), if k == 0 then i else i - 1, b);
    }
  }

  // ---------------------------------------------------------------- the policy, in Characters

  /** Components left of a path. */
  function Kept(u: Library, path: Bytes): seq<Bytes> {
    DropLast(DropFirst(Components(u, path)))
  }

  lemma KeptParts(u: Library, path: Bytes)
    ensures Separable(u, Kept(u, path))
    ensures Kept(u, path) != [] ==> Kept(u, path)[0] != [DOT]
    ensures forall c :: c in Kept(u, path) ==> c in Components(u, path)
    ensures forall c :: c in Components(u, path) && c != [DOT] ==> c in Kept(u, path)
  {
    hide Separable, Components;
    SplitSeparable(u, path);
    DropFirstKeeps(u, Components(u, path));
    DropLastKeeps(u, DropFirst(Components(u, path)));
  }

  /**
   A normalised path is a join of proper components: to Swift it is relative, without NUL, `.` and `..`;
   and normalising it once more changes nothing.
   */
  lemma NormalizedSafe(u: Library, path: Bytes)
    requires Normalized(u, path).Ok? && Normalized(u, path).value.Some?
    ensures var q := Normalized(u, path).value.value;
            && q != [] && !HasPrefix(u, q, [SLASH]) && 0 !in q
            && Components(u, q) == Kept(u, path)
            && (forall c :: c in Components(u, q) ==> c != [] && c != [DOT] && c != [DOT, DOT])
            && Normalized(u, q) == Ok(Some(q))
  {
    hide Components, JoinPath, Lone;
    var cs := Kept(u, path);
    var q := JoinPath(cs);
    KeptParts(u, path);
    SplitJoin(u, cs);
    JoinExtends(u, cs);
    StartsInside(u, cs);
    if 0 in q {
      JoinHas(cs, 0);
      var i :| 0 <= i < |cs| && 0 in cs[i];
      assert cs[i] in Components(u, path);
      var k :| 0 <= k < |Components(u, path)| && Components(u, path)[k] == cs[i];
      SplitHas(u, path, k, 0);
    }
  }

  lemma StartsInside(u: Library, cs: seq<Bytes>)
    requires Separable(u, cs) && cs != []
    ensures !HasPrefix(u, JoinPath(cs), [SLASH])
  {
    var c, q := cs[0], JoinPath(cs);
    if q[0] == SLASH {
      assert c[0] == SLASH && !Lone(u, c, 0);
      NothingPrepends(u, c[..0]);
      assert Extends(u, c[1..]);
      if |cs| > 1 {
        var rest := [SLASH] + JoinPath(cs[1..]);
        assert q[1..] == c[1..] + rest;
        ExtendsFront(u, c[1..], rest);
      } else {
        assert q[1..] == c[1..];
      }
    }
  }

  // ---------------------------------------------------------------- the policy, in bytes

  /** The path is relative and has no empty part, no `.` and no `..`, wherever a byte is a slash. */
  ghost predicate SafeBytes(q: Bytes) {
    forall c :: c in Pieces(PLAIN, q, SLASH) ==> c != [] && c != [DOT] && c != [DOT, DOT]
  }

  lemma {:induction false} PiecesOfBoth(a: Bytes, b: Bytes)
    ensures Pieces(PLAIN, a + [SLASH] + b, SLASH) == Pieces(PLAIN, a, SLASH) + Pieces(PLAIN, b, SLASH)
    decreases |a|
  {
    hide FindLone, Lone;
    var all := a + [SLASH] + b;
    var k := FindLone(PLAIN, a, SLASH, 0);
    PlainBefore(a, b, k);
    if k == |a| {
      assert all[..k] == a && all[k + 1..] == b;
    } else {
      assert all[..k] == a[..k] && all[k + 1..] == a[k + 1..] + [SLASH] + b;
      PiecesOfBoth(a[k + 1..], b);
      assert [a[..k]] + (Pieces(PLAIN, a[k + 1..], SLASH) + Pieces(PLAIN, b, SLASH))
          == ([a[..k]] + Pieces(PLAIN, a[k + 1..], SLASH)) + Pieces(PLAIN, b, SLASH);
    }
  }

  lemma PlainBefore(a: Bytes, b: Bytes, k: nat)
    requires k == FindLone(PLAIN, a, SLASH, 0)
    ensures FindLone(PLAIN, a + [SLASH] + b, SLASH, 0) == k
  {
    var all := a + [SLASH] + b;
    assert forall j | 0 <= j < k :: all[j] == a[j] && Lone(PLAIN, a, j);
    assert k < |a| ==> all[k] == a[k];
    FindAt(PLAIN, all, SLASH, k);
  }

  lemma {:induction false} JoinSafe(cs: seq<Bytes>)
    requires cs != []
    ensures SafeBytes(JoinPath(cs)) <==> forall c :: c in cs ==> SafeBytes(c)
    decreases |cs|
  {
    hide SafeBytes, Pieces;
    if |cs| > 1 {
      var first, rest := cs[0], JoinPath(cs[1..]);
      JoinSafe(cs[1..]);
      SafeTogether(first, rest);
      assert cs == [first] + cs[1..];
    } else {
      assert forall c :: c in cs <==> c == cs[0];
    }
  }

  lemma SafeTogether(a: Bytes, b: Bytes)
    ensures SafeBytes(a + [SLASH] + b) <==> SafeBytes(a) && SafeBytes(b)
  {
    hide Pieces;
    PiecesOfBoth(a, b);
    assert forall c :: c in Pieces(PLAIN, a, SLASH) + Pieces(PLAIN, b, SLASH)
                  <==> c in Pieces(PLAIN, a, SLASH) || c in Pieces(PLAIN, b, SLASH);
  }

  lemma SafeAlone(c: Bytes)
    requires SLASH !in c
    ensures SafeBytes(c) <==> c != [] && c != [DOT] && c != [DOT, DOT]
  {
    assert Pieces(PLAIN, c, SLASH) == [c] && c in [c];
  }

  /**
   As bytes, which is what a file system sees, the normalised path is safe exactly when every component
   that still has a slash in it, joined to another scalar, is safe as bytes itself.
   */
  lemma NormalizedSafeExactly(u: Library, path: Bytes)
    requires Normalized(u, path).Ok? && Normalized(u, path).value.Some?
    ensures SafeBytes(Normalized(u, path).value.value) <==>
            forall c :: c in Components(u, path) && SLASH in c ==> SafeBytes(c)
  {
    hide Components, SafeBytes, JoinPath;
    var cs := Kept(u, path);
    KeptParts(u, path);
    NormalizedSafe(u, path);
    JoinSafe(cs);
    forall c | c in cs && SLASH !in c
      ensures SafeBytes(c)
    {
      SafeAlone(c);
    }
    assert forall c :: c in Components(u, path) && SLASH in c ==> c in cs;
  }

  /** U+0301, a combining accent. */
  const ACCENT: Bytes := [0xcc, 0x81]
  const ESCAPING: Bytes := [DOT, DOT, SLASH] + ACCENT

  /** Concrete failure: a slash with an accent separates nothing for Swift, and `..` stays in the path. */
  lemma DotDotStays(u: Library)
    requires ACCENT in u.extenders
    ensures Normalized(u, ESCAPING) == Ok(Some(ESCAPING)) && !SafeBytes(ESCAPING)
  {
    var path := ESCAPING;
    assert path[3..] == ACCENT && ACCENT <= path[3..];
    assert Extends(u, path[3..]) && !Lone(u, path, 2);
    FindAt(u, path, SLASH, |path|);
    assert Components(u, path) == [path] by {
      assert path[..|path|] == path;
    }
    assert path[0] != SLASH;
    assert Normalized(u, path) == Ok(Some(path));
    assert path == [DOT, DOT] + [SLASH] + ACCENT;
    PiecesOfBoth([DOT, DOT], ACCENT);
    SafeAlone([DOT, DOT]);
    SafeTogether([DOT, DOT], ACCENT);
  }
}
