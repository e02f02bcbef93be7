/** The manifest of an OCI image: layers replayed entry by entry, with whiteouts (Session/OrlixOCIImageLayout.swift). */
module LayerReplay {
  import opened HostTypes
  import opened SwiftText
  import opened TarNumbers
  import opened TarPaths
  import opened TarReader

  datatype Operation = Applied(entry: Entry) | Removed(path: Bytes) | Opaque(directory: Bytes)

  // ---------------------------------------------------------------- operations of a layer

  /** ".wh." and ".wh..wh..opq". */
  const WHITEOUT: Bytes := [46, 119, 104, 46]
  const OPAQUE: Bytes := [46, 119, 104, 46, 46, 119, 104, 46, 46, 111, 112, 113]

  datatype Outcome<+T> = Done(value: T) | InvalidWhiteout(path: Bytes)

  /** What an archive entry asks for: a whiteout in place of its target, an opaque directory, or the entry itself. */
  function OperationOf(u: Library, entry: Entry): Outcome<Operation> {
    var cs := Components(u, entry.path);
    if cs == [] then Done(Applied(entry))
    else
      var name, parent := cs[|cs| - 1], JoinPath(cs[..|cs| - 1]);
      if name == OPAQUE then Done(Opaque(parent))
      else if !HasPrefix(u, name, WHITEOUT) then Done(Applied(entry))
      else if name == WHITEOUT then InvalidWhiteout(entry.path)
      else Done(Removed(if parent == [] then name[4..] else parent + [SLASH] + name[4..]))
  }

  /** The operations of a layer, in the order of its entries. */
  function OperationsOf(u: Library, entries: seq<Entry>): Outcome<seq<Operation>> {
    if entries == [] then Done([])
    else
      match OperationOf(u, entries[0])
      case InvalidWhiteout(p) => InvalidWhiteout(p)
      case Done(op) =>
        match OperationsOf(u, entries[1..])
        case InvalidWhiteout(p) => InvalidWhiteout(p)
        case Done(rest) => Done([op] + rest)
  }

  /** The loop of the layer applicator that collects the operations. */
  method LayerOperations(u: Library, entries: seq<Entry>) returns (r: Outcome<seq<Operation>>)
    ensures r == OperationsOf(u, entries)
  {
    hide OperationOf;
    var ops: seq<Operation> := [];
    var i := 0;
    assert entries[0..] == entries;
    InFrontOfNothing(OperationsOf(u, entries));
    while i < |entries|
      invariant i <= |entries| && InFront(ops, OperationsOf(u, entries[i..])) == OperationsOf(u, entries)
    {
      var op := OperationOf(u, entries[i]);
      OperationsNext(u, entries, i, ops);
      match op {
        case InvalidWhiteout(path) => return InvalidWhiteout(path);
        case Done(operation) => ops := ops + [operation];
      }
      i := i + 1;
    }
    assert entries[i..] == [] && ops + [] == ops;
    return Done(ops);
  }

  function InFront(ops: seq<Operation>, r: Outcome<seq<Operation>>): Outcome<seq<Operation>> {
    match r
    case InvalidWhiteout(p) => InvalidWhiteout(p)
    case Done(rest) => Done(ops + rest)
  }

  lemma InFrontOfNothing(r: Outcome<seq<Operation>>)
    ensures InFront([], r) == r
  {
    if r.Done? {
      assert [] + r.value == r.value;
    }
  }

  lemma OperationsNext(u: Library, entries: seq<Entry>, i: nat, ops: seq<Operation>)
    requires i < |entries|
    ensures OperationOf(u, entries[i]).InvalidWhiteout? ==>
              InFront(ops, OperationsOf(u, entries[i..])) == InvalidWhiteout(OperationOf(u, entries[i]).path)
    ensures OperationOf(u, entries[i]).Done? ==>
              InFront(ops, OperationsOf(u, entries[i..]))
                  == InFront(ops + [OperationOf(u, entries[i]).value], OperationsOf(u, entries[i + 1..]))
  {
    hide OperationOf;
    assert entries[i..][0] == entries[i] && entries[i..][1..] == entries[i + 1..];
    var op, rest := OperationOf(u, entries[i]), OperationsOf(u, entries[i + 1..]);
    if op.Done? && rest.Done? {
      assert ops + ([op.value] + rest.value) == (ops + [op.value]) + rest.value;
    }
  }

  /**
   A whiteout file in a directory removes the path of the name behind its prefix, and the opaque marker
   empties the directory; any other file is applied as it is.
   */
  lemma WhiteoutTargets(u: Library, directory: seq<Bytes>, name: Bytes, entry: Entry)
    requires Separable(u, directory + [name]) && entry.path == JoinPath(directory + [name])
    ensures OperationOf(u, entry) ==
            if name == OPAQUE then Done(Opaque(JoinPath(directory)))
            else if !HasPrefix(u, name, WHITEOUT) then Done(Applied(entry))
            else if name == WHITEOUT then InvalidWhiteout(entry.path)
            else Done(Removed(JoinPath(directory + [name[4..]])))
  {
    hide Components;
    var cs := directory + [name];
    SplitJoin(u, cs);
    assert cs[|cs| - 1] == name && cs[..|cs| - 1] == directory;
    if directory != [] {
      assert cs[0] == directory[0] && directory[0] != [];
      JoinLast(directory, name[if |name| > 4 then 4 else 0..]);
    } else {
      assert directory + [name[if |name| > 4 then 4 else 0..]] == [name[if |name| > 4 then 4 else 0..]];
    }
  }

  lemma {:induction false} JoinLast(cs: seq<Bytes>, c: Bytes)
    requires cs != []
    ensures JoinPath(cs + [c]) == JoinPath(cs) + [SLASH] + c
    decreases |cs|
  {
    assert (cs + [c])[1..] == cs[1..] + [c];
    if |cs| == 1 {
      assert JoinPath((cs + [c])[1..]) == c;
    } else {
      JoinLast(cs[1..], c);
      var front := cs[0] + [SLASH];
      assert front + (JoinPath(cs[1..]) + [SLASH] + c) == (front + JoinPath(cs[1..])) + [SLASH] + c;
    }
  }

  // ---------------------------------------------------------------- the manifest

  /** The path lies below the directory. */
  predicate Under(u: Library, path: Bytes, directory: Bytes) {
    HasPrefix(u, path, directory + [SLASH])
  }

  function OpaqueEntry(directory: Bytes): Entry {
    Entry(directory, 0, 0x1ed, 0, 0, Directory, None, 0, None, None, map[], [], None)
  }

  /** The operation takes whatever the manifest has at the path. */
  predicate Clears(u: Library, op: Operation, path: Bytes) {
    match op
    case Applied(e) => path == e.path || (e.kind != Directory && Under(u, path, e.path))
    case Removed(p) => path == p || Under(u, path, p)
    case Opaque(d) => d == [] || Under(u, path, d)
  }

  /** `removeAll` of the entries the operation clears. */
  function Cleared(u: Library, manifest: seq<Entry>, op: Operation): (r: seq<Entry>)
    ensures forall e :: e in r <==> e in manifest && !Clears(u, op, e.path)
  {
    if manifest == [] then []
    else
      var rest := Cleared(u, manifest[1..], op);
      if Clears(u, op, manifest[0].path) then rest else [manifest[0]] + rest
  }

  predicate HasPath(manifest: seq<Entry>, path: Bytes) {
    exists i :: 0 <= i < |manifest| && manifest[i].path == path
  }

  function Changed(u: Library, manifest: seq<Entry>, op: Operation): seq<Entry> {
    var rest := Cleared(u, manifest, op);
    match op
    case Applied(e) => rest + [e]
    case Removed(_) => rest
    case Opaque(d) => if d == [] || HasPath(rest, d) then rest else rest + [OpaqueEntry(d)]
  }

  function Replay(u: Library, ops: seq<Operation>): seq<Entry> {
    if ops == [] then [] else Changed(u, Replay(u, ops[..|ops| - 1]), ops[|ops| - 1])
  }

  class Manifest {
    const u: Library
    var entries: seq<Entry>

    constructor (u: Library)
      ensures this.u == u && entries == Replay(u, [])
    {
      this.u, entries := u, [];
    }

    /** `removeAll(where:)`. */
    method RemoveAll(op: Operation)
      modifies this
      ensures entries == Cleared(u, old(entries), op)
    {
      var all, kept := entries, [];
      ghost var whole := Cleared(u, all, op);
      var i := 0;
      assert all[0..] == all && kept + whole == whole;
      while i < |all|
        invariant i <= |all| && kept + Cleared(u, all[i..], op) == whole
      {
        ClearedNext(u, all, i, op, kept);
        if !Clears(u, op, all[i].path) {
          kept := kept + [all[i]];
        }
        i := i + 1;
      }
      assert all[i..] == [] && kept + [] == kept;
      entries := kept;
    }

    method ApplyOpaqueDirectory(directory: Bytes)
      modifies this
      ensures entries == Changed(u, old(entries), Opaque(directory))
    {
      RemoveAll(Opaque(directory));
      if directory != [] && !(exists i :: 0 <= i < |entries| && entries[i].path == directory) {
        entries := entries + [OpaqueEntry(directory)];
      }
    }

    method RemovePath(path: Bytes)
      modifies this
      ensures entries == Changed(u, old(entries), Removed(path))
    {
      RemoveAll(Removed(path));
    }

    method ApplyEntry(entry: Entry)
      modifies this
      ensures entries == Changed(u, old(entries), Applied(entry))
    {
      RemoveAll(Applied(entry));
      entries := entries + [entry];
    }

    /** `applyManifestChanges`: the manifest after the history so far and the operations of one more layer. */
    method ApplyManifestChanges(ghost history: seq<Operation>, ops: seq<Operation>)
      requires entries == Replay(u, history)
      modifies this
      ensures entries == Replay(u, history + ops)
    {
      hide Changed, Replay;
      ghost var done := history;
      var i := 0;
      assert history + ops[..0] == history;
      while i < |ops|
        invariant i <= |ops| && done == history + ops[..i] && entries == Replay(u, done)
      {
        ReplayNext(u, done, ops[i]);
        assert history + ops[..i + 1] == done + [ops[i]];
        done := done + [ops[i]];
        match ops[i] {
          case Opaque(directory) => ApplyOpaqueDirectory(directory);
          case Removed(path) => RemovePath(path);
          case Applied(entry) => ApplyEntry(entry);
        }
        i := i + 1;
      }
      assert ops[..i] == ops;
    }
  }

  lemma ClearedNext(u: Library, all: seq<Entry>, i: nat, op: Operation, kept: seq<Entry>)
    requires i < |all|
    ensures kept + Cleared(u, all[i..], op)
         == (if Clears(u, op, all[i].path) then kept else kept + [all[i]]) + Cleared(u, all[i + 1..], op)
  {
    assert all[i..][1..] == all[i + 1..] && all[i..][0] == all[i];
  }

  lemma ReplayNext(u: Library, history: seq<Operation>, op: Operation)
    ensures Replay(u, history + [op]) == Changed(u, Replay(u, history), op)
  {
    assert (history + [op])[..|history|] == history;
  }

  // ---------------------------------------------------------------- unique paths

  predicate UniquePaths(manifest: seq<Entry>) {
    forall i, j :: 0 <= i < j < |manifest| ==> manifest[i].path != manifest[j].path
  }

  lemma {:induction false} ClearedUnique(u: Library, manifest: seq<Entry>, op: Operation)
    requires UniquePaths(manifest)
    ensures UniquePaths(Cleared(u, manifest, op))
  {
    if manifest != [] {
      var rest := Cleared(u, manifest[1..], op);
      ClearedUnique(u, manifest[1..], op);
      forall i | 0 <= i < |rest|
        ensures rest[i].path != manifest[0].path
      {
        assert rest[i] in manifest[1..];
        var k :| 0 <= k < |manifest[1..]| && manifest[1..][k] == rest[i];
        assert manifest[k + 1] == rest[i];
      }
    }
  }

  /** After any operations, no two entries of the manifest have the same path. */
  lemma {:induction false} ReplayUnique(u: Library, ops: seq<Operation>)
    ensures UniquePaths(Replay(u, ops))
  {
    if ops != [] {
      var before, op := Replay(u, ops[..|ops| - 1]), ops[|ops| - 1];
      var rest := Cleared(u, before, op);
      ReplayUnique(u, ops[..|ops| - 1]);
      ClearedUnique(u, before, op);
      if op.Applied? {
        forall i | 0 <= i < |rest|
          ensures rest[i].path != op.entry.path
        {
          assert rest[i] in rest;
        }
      }
    }
  }

  // ---------------------------------------------------------------- the last surviving operation

  /** Nothing after operation `i` clears the path. */
  ghost predicate Survives(u: Library, ops: seq<Operation>, i: nat, path: Bytes) {
    i < |ops| && forall j :: i < j < |ops| ==> !Clears(u, ops[j], path)
  }

  ghost predicate SurvivingEntry(u: Library, ops: seq<Operation>, e: Entry) {
    exists i: nat :: Survives(u, ops, i, e.path) && ops[i] == Applied(e)
  }

  ghost predicate SurvivingOpaque(u: Library, ops: seq<Operation>, path: Bytes) {
    path != [] && exists i: nat :: Survives(u, ops, i, path) && ops[i] == Opaque(path)
  }

  /**
   The rule over the whole history: the entry at a path is the last one applied there, unless a later
   operation cleared it; without one, a directory that was made opaque and not cleared since has an
   entry of its own.
   */
  ghost predicate Rule(u: Library, ops: seq<Operation>, e: Entry) {
    || SurvivingEntry(u, ops, e)
    || (e == OpaqueEntry(e.path) && SurvivingOpaque(u, ops, e.path) && forall f: Entry :: f.path == e.path ==>
        !SurvivingEntry(u, ops, f))
  }

  lemma SurvivesNext(u: Library, ops: seq<Operation>, op: Operation, i: nat, path: Bytes)
    ensures Survives(u, ops + [op], i, path) <==> i == |ops| || (Survives(u, ops, i, path) && !Clears(u, op, path))
  {
    var all := ops + [op];
    if i < |ops| && Survives(u, all, i, path) {
      assert !Clears(u, all[|ops|], path);
      forall j | i < j < |ops|
        ensures !Clears(u, ops[j], path)
      {
        assert all[j] == ops[j];
      }
    }
    if i < |ops| && Survives(u, ops, i, path) && !Clears(u, op, path) {
      forall j | i < j < |all|
        ensures !Clears(u, all[j], path)
      {
        assert j < |ops| ==> all[j] == ops[j];
      }
    }
  }

  lemma SurvivingEntryNext(u: Library, ops: seq<Operation>, op: Operation, e: Entry)
    ensures SurvivingEntry(u, ops + [op], e) <==>
              op == Applied(e) || (SurvivingEntry(u, ops, e) && !Clears(u, op, e.path))
  {
    var all := ops + [op];
    if SurvivingEntry(u, all, e) {
      var i: nat :| Survives(u, all, i, e.path) && all[i] == Applied(e);
      SurvivesNext(u, ops, op, i, e.path);
    }
    if op == Applied(e) {
      SurvivesNext(u, ops, op, |ops|, e.path);
    } else if SurvivingEntry(u, ops, e) && !Clears(u, op, e.path) {
      var i: nat :| Survives(u, ops, i, e.path) && ops[i] == Applied(e);
      SurvivesNext(u, ops, op, i, e.path);
      assert all[i] == Applied(e);
    }
  }

  lemma SurvivingOpaqueNext(u: Library, ops: seq<Operation>, op: Operation, path: Bytes)
    requires path != []
    ensures SurvivingOpaque(u, ops + [op], path) <==>
              op == Opaque(path) || (SurvivingOpaque(u, ops, path) && !Clears(u, op, path))
  {
    var all := ops + [op];
    if SurvivingOpaque(u, all, path) {
      var i: nat :| Survives(u, all, i, path) && all[i] == Opaque(path);
      SurvivesNext(u, ops, op, i, path);
    }
    if op == Opaque(path) {
      SurvivesNext(u, ops, op, |ops|, path);
    } else if SurvivingOpaque(u, ops, path) && !Clears(u, op, path) {
      var i: nat :| Survives(u, ops, i, path) && ops[i] == Opaque(path);
      SurvivesNext(u, ops, op, i, path);
      assert all[i] == Opaque(path);
    }
  }

  /** No entry of the rule has the path. */
  ghost predicate Vacant(u: Library, ops: seq<Operation>, path: Bytes) {
    forall f: Entry :: f.path == path ==> !Rule(u, ops, f)
  }

  ghost predicate NoEntry(u: Library, ops: seq<Operation>, path: Bytes) {
    forall f: Entry :: f.path == path ==> !SurvivingEntry(u, ops, f)
  }

  lemma NoEntryNext(u: Library, ops: seq<Operation>, op: Operation, path: Bytes)
    ensures NoEntry(u, ops + [op], path) <==>
              !(op.Applied? && op.entry.path == path) && (NoEntry(u, ops, path) || Clears(u, op, path))
  {
    forall f: Entry
      ensures SurvivingEntry(u, ops + [op], f) <==>
                op == Applied(f) || (SurvivingEntry(u, ops, f) && !Clears(u, op, f.path))
    {
      SurvivingEntryNext(u, ops, op, f);
    }
    if op.Applied? && op.entry.path == path {
      assert SurvivingEntry(u, ops + [op], op.entry);
    }
  }

  lemma VacantExactly(u: Library, ops: seq<Operation>, path: Bytes)
    ensures Vacant(u, ops, path) <==> NoEntry(u, ops, path) && !SurvivingOpaque(u, ops, path)
  {
    if NoEntry(u, ops, path) && SurvivingOpaque(u, ops, path) {
      assert Rule(u, ops, OpaqueEntry(path));
    }
  }

  /** One more operation, in terms of the rule before it. */
  lemma RuleNext(u: Library, ops: seq<Operation>, op: Operation, e: Entry)
    ensures Rule(u, ops + [op], e) <==>
            || (Rule(u, ops, e) && !Clears(u, op, e.path)) || op == Applied(e)
            || (op == Opaque(e.path) && e.path != [] && e == OpaqueEntry(e.path) && Vacant(u, ops, e.path))
  {
    hide SurvivingEntry, SurvivingOpaque, Vacant, Under;
    var path := e.path;
    SurvivingEntryNext(u, ops, op, e);
    NoEntryNext(u, ops, op, path);
    VacantExactly(u, ops, path);
    RuleParts(u, ops, e);
    RuleParts(u, ops + [op], e);
    NotUnderItself(u, path);
    EmptyNeverOpaque(u, ops);
    EmptyNeverOpaque(u, ops + [op]);
    if path != [] {
      SurvivingOpaqueNext(u, ops, op, path);
    }
  }

  lemma NotUnderItself(u: Library, path: Bytes)
    ensures !Under(u, path, path)
  {
  }

  lemma EmptyNeverOpaque(u: Library, ops: seq<Operation>)
    ensures !SurvivingOpaque(u, ops, [])
  {
  }

  lemma RuleParts(u: Library, ops: seq<Operation>, e: Entry)
    ensures Rule(u, ops, e) <==>
            || SurvivingEntry(u, ops, e)
            || (e == OpaqueEntry(e.path) && SurvivingOpaque(u, ops, e.path) && NoEntry(u, ops, e.path))
  {
  }

  lemma ChangedHas(u: Library, manifest: seq<Entry>, op: Operation, e: Entry)
    ensures e in Changed(u, manifest, op) <==>
            || (e in manifest && !Clears(u, op, e.path)) || op == Applied(e)
            || (op == Opaque(e.path) && e.path != [] && e == OpaqueEntry(e.path) && !HasPath(manifest, e.path))
  {
    var rest := Cleared(u, manifest, op);
    if op.Opaque? && op.directory != [] {
      var d := op.directory;
      NotUnderItself(u, d);
      if HasPath(manifest, d) {
        var i :| 0 <= i < |manifest| && manifest[i].path == d;
        assert manifest[i] in rest;
        assert HasPath(rest, d);
      }
      if HasPath(rest, d) {
        var i :| 0 <= i < |rest| && rest[i].path == d;
        assert rest[i] in manifest;
      }
    }
  }

  /**
   The manifest after any operations has exactly the entries of the rule.
   */
  lemma {:induction false} ReplayRule(u: Library, ops: seq<Operation>, e: Entry)
    ensures e in Replay(u, ops) <==> Rule(u, ops, e)
    decreases |ops|, 0
  {
    if ops != [] {
      hide Changed, Rule, Clears;
      var front, op := ops[..|ops| - 1], ops[|ops| - 1];
      assert ops == front + [op];
      ReplayRule(u, front, e);
      RuleNext(u, front, op, e);
      ChangedHas(u, Replay(u, front), op, e);
      VacantIsFree(u, front, e.path);
    } else {
      assert !SurvivingEntry(u, ops, e);
    }
  }

  lemma {:induction false} VacantIsFree(u: Library, ops: seq<Operation>, path: Bytes)
    ensures Vacant(u, ops, path) <==> !HasPath(Replay(u, ops), path)
    decreases |ops|, 1
  {
    hide Rule, Replay;
    forall f: Entry
      ensures f in Replay(u, ops) <==> Rule(u, ops, f)
    {
      ReplayRule(u, ops, f);
    }
    var manifest := Replay(u, ops);
    if HasPath(manifest, path) {
      var i :| 0 <= i < |manifest| && manifest[i].path == path;
      assert Rule(u, ops, manifest[i]);
    }
    if !Vacant(u, ops, path) {
      var f: Entry :| f.path == path && Rule(u, ops, f);
      assert f in manifest;
    }
  }
}
