/**
 The kernel command line OrlixOS prints for an environment (Session/OrlixEnvironment.swift), and what
 init reads back from it.
 */
module CommandLine {
  import opened HostTypes
  import opened PercentCode
  import opened DecimalText
  import opened InitCommand
  import SwiftText

  type Library = SwiftText.Library

  /**
   The parts of an environment descriptor that reach init; `environment` lists its entries in the order of
   their keys.
   */
  datatype Descriptor = Descriptor(command: seq<Text>, environment: seq<(Text, Text)>, directory: Text, uid: nat,
                                   gid: nat)

  datatype Error =
    | InvalidCommand(command: Text)
    | InvalidArgument(argument: Text)
    | InvalidEnvironment(key: Text)
    | InvalidDirectory(path: Text)

  datatype Result<T> = Ok(value: T) | Err(error: Error)

  // ---------------------------------------------------------------- printer

  /** Keys of the tokens on the line. */
  datatype Key =
    | Console | Rdinit | Root | Profile
    | Exec | Arg(index: nat) | Env(index: nat) | Directory | UserId | GroupId

  function KeyText(k: Key): Text {
    match k
    case Console => "console="
    case Rdinit => "rdinit="
    case Root => "orlix.root="
    case Profile => "orlix.profile="
    case Exec => "orlix.exec="
    case Arg(i) => ArgKey(i)
    case Env(i) => EnvKey(i)
    case Directory => "orlix.cwd="
    case UserId => "orlix.uid="
    case GroupId => "orlix.gid="
  }

  type Entry = (Key, Text)

  function Token(e: Entry): Text {
    KeyText(e.0) + e.1
  }

  /** The tokens of `defaultKernelCommandLine`. */
  const DEFAULT_ENTRIES: seq<Entry> :=
    [(Console, "ttyS0"), (Console, "hvc0"), (Rdinit, "/init"), (Root, "overlay"), (Profile, "development")]

  function Join(tokens: seq<Text>): Text {
    if tokens == [] then [] else if |tokens| == 1 then tokens[0] else tokens[0] + [' '] + Join(tokens[1..])
  }

  function TokensOf(entries: seq<Entry>): (r: seq<Text>)
    ensures |r| == |entries|
  {
    if entries == [] then [] else [Token(entries[0])] + TokensOf(entries[1..])
  }

  /** The bytes of a text. */
  function Utf8(t: Text): (r: SwiftText.Bytes)
    ensures |r| == |t| && (IsBytes(t) ==> forall i :: 0 <= i < |t| ==> r[i] == t[i] as int)
  {
    seq(|t|, i requires 0 <= i < |t| => t[i] as int % 0x100)
  }

  /** `contains`: the Character is in the text, not joined to another scalar. */
  predicate Holds(u: Library, t: Text, c: char) {
    exists i :: 0 <= i < |t| && t[i] == c && SwiftText.Lone(u, Utf8(t), i)
  }

  /** `hasPrefix("/")`. */
  predicate IsAbsolute(u: Library, t: Text) {
    SwiftText.HasPrefix(u, Utf8(t), [SwiftText.SLASH])
  }

  /** `validateExecCommand`. */
  predicate ValidCommand(u: Library, command: Text) {
    command != [] && NoNul(command) && (IsAbsolute(u, command) || !Holds(u, command, '/'))
  }

  predicate ValidEntry(u: Library, key: Text, value: Text) {
    key != [] && !Holds(u, key, '=') && NoNul(key) && NoNul(value)
  }

  /** `validateWorkingDirectory`. */
  predicate ValidWorkingDirectory(u: Library, path: Text) {
    IsAbsolute(u, path) && path != [] && NoNul(path)
  }

  function Assignment(e: (Text, Text)): Text {
    e.0 + "=" + e.1
  }

  function Assignments(environment: seq<(Text, Text)>): (r: seq<Text>)
    ensures |r| == |environment|
  {
    if environment == [] then [] else [Assignment(environment[0])] + Assignments(environment[1..])
  }

  /** The first thing wrong with the descriptor, in the order in which the printer looks. */
  function Problem(u: Library, d: Descriptor): Option<Error> {
    if d.command == [] then Some(InvalidCommand([]))
    else if !ValidCommand(u, d.command[0]) then Some(InvalidCommand(d.command[0]))
    else if BadArgument(d.command).Some? then Some(InvalidArgument(BadArgument(d.command).value))
    else if BadEntry(u, d.environment).Some? then Some(InvalidEnvironment(BadEntry(u, d.environment).value))
    else if !ValidWorkingDirectory(u, d.directory) then Some(InvalidDirectory(d.directory))
    else None
  }

  function BadArgument(command: seq<Text>): (r: Option<Text>)
    ensures r == None ==> forall i :: 0 <= i < |command| ==> NoNul(command[i])
  {
    if command == [] then None else if NoNul(command[0]) then BadArgument(command[1..]) else Some(command[0])
  }

  function BadEntry(u: Library, environment: seq<(Text, Text)>): (r: Option<Text>)
    ensures r == None ==> forall i :: 0 <= i < |environment| ==> ValidEntry(u, environment[i].0, environment[i].1)
  {
    if environment == [] then None
    else if ValidEntry(u, environment[0].0, environment[0].1) then BadEntry(u, environment[1..])
    else Some(environment[0].0)
  }

  /** One token for each value, numbered from `i`. */
  function Numbered(arguments: bool, values: seq<Text>, i: nat): (r: seq<Entry>)
    requires AllBytes(values)
    ensures |r| == |values|
    decreases |values|
  {
    if values == [] then []
    else [(if arguments then Arg(i) else Env(i), Encode(values[0]))] + Numbered(arguments, values[1..], i + 1)
  }

  predicate AllBytes(values: seq<Text>) {
    forall i :: 0 <= i < |values| ==> IsBytes(values[i])
  }

  /** Swift strings are printed byte by byte of their UTF-8; user and group are 32-bit numbers. */
  predicate Printable(d: Descriptor) {
    && AllBytes(d.command) && AllBytes(Assignments(d.environment)) && IsBytes(d.directory)
    && d.uid < 0x1_0000_0000 && d.gid < 0x1_0000_0000
  }

  /** The tokens of `materializedExecutionTokens`. */
  function ExecutionEntries(d: Descriptor): seq<Entry>
    requires Printable(d) && d.command != []
  {
    [(Exec, Encode(d.command[0]))] + Numbered(true, d.command, 0) + Numbered(false, Assignments(d.environment), 0)
    + [(Directory, Encode(d.directory)), (UserId, Decimal(d.uid)), (GroupId, Decimal(d.gid))]
  }

  /** `defaultKernelCommandLine`, token by token. */
  const DEFAULT_LINE: Text :=
    "console=" + "ttyS0" + " " + ("console=" + "hvc0" + " " + ("rdinit=" + "/init" + " "
    + ("orlix.root=" + "overlay" + " " + ("orlix.profile=" + "development"))))

  /** `materializedKernelCommandLine`: only the default line gets the tokens of the environment. */
  function Materialized(u: Library, d: Descriptor, line: Option<Text>): Result<Option<Text>>
    requires Printable(d)
  {
    if line != Some(DEFAULT_LINE) then Result.Ok(line)
    else match Problem(u, d)
      case Some(e) => Err(e)
      case None => Result.Ok(Some(Join([DEFAULT_LINE] + TokensOf(ExecutionEntries(d)))))
  }

  lemma TokensAppend(a: seq<Entry>, b: seq<Entry>)
    ensures TokensOf(a + b) == TokensOf(a) + TokensOf(b)
    decreases |a|
  {
    if a != [] {
      assert (a + b)[1..] == a[1..] + b;
      TokensAppend(a[1..], b);
    } else {
      assert a + b == b;
    }
  }

  lemma {:induction false} NumberedNext(arguments: bool, values: seq<Text>, k: nat, i: nat)
    requires AllBytes(values) && k < |values|
    ensures Numbered(arguments, values[..k + 1], i)
         == Numbered(arguments, values[..k], i) + [(if arguments then Arg(i + k) else Env(i + k), Encode(values[k]))]
    decreases k
  {
    if k > 0 {
      assert values[..k + 1][1..] == values[1..][..k] && values[..k][1..] == values[1..][..k - 1];
      NumberedNext(arguments, values[1..], k - 1, i + 1);
    }
  }

  lemma TokenNext(arguments: bool, values: seq<Text>, k: nat)
    requires AllBytes(values) && k < |values|
    ensures TokensOf(Numbered(arguments, values[..k + 1], 0))
         == TokensOf(Numbered(arguments, values[..k], 0))
            + [Token((if arguments then Arg(k) else Env(k), Encode(values[k])))]
  {
    hide Encode, Decimal, Numbered;
    var e: Entry := (if arguments then Arg(k) else Env(k), Encode(values[k]));
    NumberedNext(arguments, values, k, 0);
    TokensAppend(Numbered(arguments, values[..k], 0), [e]);
    assert TokensOf([e]) == [Token(e)];
  }

  lemma BadArgumentFrom(command: seq<Text>, i: nat)
    requires i < |command|
    ensures BadArgument(command[i..]) == if NoNul(command[i]) then BadArgument(command[i + 1..]) else Some(command[i])
  {
    assert command[i..][1..] == command[i + 1..];
  }

  lemma BadNone()
    ensures BadArgument([]) == None
  {
  }

  lemma BadNoEntry(u: Library)
    ensures BadEntry(u, []) == None
  {
  }

  lemma BadEntryFrom(u: Library, environment: seq<(Text, Text)>, i: nat)
    requires i < |environment|
    ensures BadEntry(u, environment[i..]) ==
            if ValidEntry(u, environment[i].0, environment[i].1) then BadEntry(u, environment[i + 1..])
            else Some(environment[i].0)
  {
    assert environment[i..][1..] == environment[i + 1..];
  }

  lemma {:induction false} AssignmentAt(environment: seq<(Text, Text)>, i: nat)
    requires i < |environment|
    ensures Assignments(environment)[i] == Assignment(environment[i])
  {
    if i > 0 {
      AssignmentAt(environment[1..], i - 1);
    }
  }

  /** The argument loop of `materializedExecutionTokens`, or the argument it throws at. */
  method ArgumentTokens(command: seq<Text>) returns (tokens: seq<Text>, bad: Option<Text>)
    requires AllBytes(command)
    ensures bad == BadArgument(command)
    ensures bad == None ==> tokens == TokensOf(Numbered(true, command, 0))
  {
    assert TokensOf(Numbered(true, command[..0], 0)) == [];
    hide Encode, Decimal, Numbered, TokensOf, BadArgument;
    tokens, bad := [], None;
    assert command[0..] == command && command[..0] == [];
    var index := 0;
    while index < |command|
      invariant index <= |command| && BadArgument(command[index..]) == BadArgument(command)
      invariant tokens == TokensOf(Numbered(true, command[..index], 0))
    {
      BadArgumentFrom(command, index);
      if !NoNul(command[index]) {
        bad := Some(command[index]);
        return;
      }
      var encoded := PercentEncoded(command[index]);
      TokenNext(true, command, index);
      tokens := tokens + ["orlix.argv" + Decimal(index) + "=" + encoded];
      index := index + 1;
    }
    BadNone();
    assert command[..index] == command && command[index..] == [];
  }

  lemma NoTokens(argument: bool)
    ensures TokensOf(Numbered(argument, [], 0)) == []
  {
  }

  /** The environment loop of `materializedExecutionTokens`, or the key it throws at. */
  method EnvironmentTokens(u: Library, environment: seq<(Text, Text)>) returns (tokens: seq<Text>, bad: Option<Text>)
    requires AllBytes(Assignments(environment))
    ensures bad == BadEntry(u, environment)
    ensures bad == None ==> tokens == TokensOf(Numbered(false, Assignments(environment), 0))
  {
    ghost var values := Assignments(environment);
    hide Encode, Decimal, Assignments, Numbered, TokensOf, BadEntry, ValidEntry, Assignment;
    NoTokens(false);
    tokens, bad := [], None;
    assert environment[0..] == environment && values[..0] == [];
    var index := 0;
    while index < |environment|
      invariant index <= |environment| && BadEntry(u, environment[index..]) == BadEntry(u, environment)
      invariant tokens == TokensOf(Numbered(false, values[..index], 0))
    {
      BadEntryFrom(u, environment, index);
      var entry := environment[index];
      if !ValidEntry(u, entry.0, entry.1) {
        bad := Some(entry.0);
        return;
      }
      AssignmentAt(environment, index);
      var encoded := PercentEncoded(Assignment(entry));
      TokenNext(false, values, index);
      tokens := tokens + ["orlix.env" + Decimal(index) + "=" + encoded];
      index := index + 1;
    }
    BadNoEntry(u);
    assert values[..index] == values && environment[index..] == [];
  }

  /** `materializedExecutionTokens` for a descriptor whose command was validated. */
  method MaterializedExecutionTokens(u: Library, d: Descriptor) returns (r: Result<seq<Text>>)
    requires Printable(d) && d.command != [] && ValidCommand(u, d.command[0])
    ensures r == match Problem(u, d) case Some(e) => Err(e) case None => Result.Ok(TokensOf(ExecutionEntries(d)))
  {
    var exec := PercentEncoded(d.command[0]);
    var tokens, badArgument := ArgumentTokens(d.command);
    if badArgument.Some? {
      return Err(InvalidArgument(badArgument.value));
    }
    var environment, badKey := EnvironmentTokens(u, d.environment);
    if badKey.Some? {
      return Err(InvalidEnvironment(badKey.value));
    }
    if !ValidWorkingDirectory(u, d.directory) {
      return Err(InvalidDirectory(d.directory));
    }
    var directory := PercentEncoded(d.directory);
    hide Encode, Decimal, Numbered;
    var all := ["orlix.exec=" + exec] + tokens + environment
      + ["orlix.cwd=" + directory] + ["orlix.uid=" + Decimal(d.uid)] + ["orlix.gid=" + Decimal(d.gid)];
    ExecutionTokens(d, exec, directory);
    return Result.Ok(all);
  }

  lemma ExecutionTokens(d: Descriptor, exec: Text, directory: Text)
    requires Printable(d) && d.command != [] && exec == Encode(d.command[0]) && directory == Encode(d.directory)
    ensures TokensOf(ExecutionEntries(d))
         == ["orlix.exec=" + exec] + TokensOf(Numbered(true, d.command, 0))
            + TokensOf(Numbered(false, Assignments(d.environment), 0))
            + ["orlix.cwd=" + directory] + ["orlix.uid=" + Decimal(d.uid)] + ["orlix.gid=" + Decimal(d.gid)]
  {
    hide Encode, Decimal, Numbered;
    var first: seq<Entry> := [(Exec, exec)];
    var args, envs := Numbered(true, d.command, 0), Numbered(false, Assignments(d.environment), 0);
    var last: seq<Entry> := [(Directory, directory), (UserId, Decimal(d.uid)), (GroupId, Decimal(d.gid))];
    TokensAppend(first, args);
    TokensAppend(first + args, envs);
    TokensAppend(first + args + envs, last);
    assert TokensOf(first) == ["orlix.exec=" + exec];
    TokensOfThree(last);
  }

  lemma TokensOfThree(es: seq<Entry>)
    requires |es| == 3
    ensures TokensOf(es) == [Token(es[0]), Token(es[1]), Token(es[2])]
  {
    var second, third := es[1..], es[2..];
    assert second[1..] == third && third[1..] == [] && second[0] == es[1] && third[0] == es[2];
    assert TokensOf(third) == [Token(es[2])] && TokensOf(second) == [Token(es[1])] + TokensOf(third);
  }
}
