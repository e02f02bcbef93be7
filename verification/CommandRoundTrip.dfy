/** What init reads is what the environment descriptor said. */
module CommandRoundTrip {
  import opened HostTypes
  import opened PercentCode
  import opened DecimalText
  import opened InitCommand
  import opened CommandLine

  // ---------------------------------------------------------------- keys

  /** A key ends in the only equals sign it has, so no token begins with the key of another one. */
  ghost predicate IsKey(k: Text) {
    k != [] && k[|k| - 1] == '=' && forall i :: 0 <= i < |k| - 1 ==> k[i] != '='
  }

  /** A token on the line: not empty, and without blanks, newlines and terminators. */
  predicate CleanText(t: Text) {
    t != [] && forall i :: 0 <= i < |t| ==> t[i] != ' ' && t[i] != NUL && t[i] != '\n'
  }

  lemma NumberedKey(prefix: Text, n: nat)
    requires CleanText(prefix) && '=' !in prefix
    ensures IsKey(prefix + Decimal(n) + "=") && CleanText(prefix + Decimal(n) + "=")
  {
    DecimalValue(n);
  }

  lemma KeyIsKey(k: Key)
    ensures IsKey(KeyText(k)) && CleanText(KeyText(k))
  {
    match k
    case Arg(i) => NumberedKey("orlix.argv", i);
    case Env(i) => NumberedKey("orlix.env", i);
    case _ =>
  }

  lemma BeginsWithKey(k: Text, other: Text, value: Text)
    requires IsKey(k) && IsKey(other)
    ensures Begins(other + value, k) <==> k == other
    ensures (other + value)[|other|..] == value
  {
    var token := other + value;
    if Begins(token, k) {
      assert forall i | 0 <= i < |k| :: k[i] == token[..|k|][i] == token[i];
      assert token[|other| - 1] == '=';
      assert |k| == |other|;
    }
    if |k| == |other| {
      assert token[..|k|] == other;
    }
  }

  /** Two characters tell the kinds of key apart. */
  function KindOf(k: Text): (char, char) {
    (if |k| > 7 then k[6] else 'x', if |k| > 7 then k[7] else 'x')
  }

  lemma KeysDiffer(a: Key, b: Key)
    requires KeyText(a) == KeyText(b)
    ensures a == b
  {
    match a
    case Arg(i) =>
      assert KindOf(KeyText(b)) == KindOf(KeyText(a)) == ('a', 'r');
      if b.Arg? {
        SameNumber("orlix.argv", i, b.index);
      }
    case Env(i) =>
      assert KindOf(KeyText(b)) == KindOf(KeyText(a)) == ('e', 'n');
      if b.Env? {
        SameNumber("orlix.env", i, b.index);
      }
    case _ =>
      assert KindOf(KeyText(b)) == KindOf(KeyText(a));
  }

  lemma SameNumber(prefix: Text, i: nat, j: nat)
    requires prefix + Decimal(i) + "=" == prefix + Decimal(j) + "="
    ensures i == j
  {
    var a, b := prefix + Decimal(i) + "=", prefix + Decimal(j) + "=";
    assert Decimal(i) == a[|prefix|..|a| - 1] && Decimal(j) == b[|prefix|..|b| - 1];
    DecimalInjective(i, j);
  }

  // ---------------------------------------------------------------- looking up a token

  function Find(entries: seq<Entry>, k: Key): Option<Text> {
    if entries == [] then None else if entries[0].0 == k then Some(entries[0].1) else Find(entries[1..], k)
  }

  /** Values on the line hold nothing that would end a token. */
  predicate CleanEntries(entries: seq<Entry>) {
    forall i :: 0 <= i < |entries| ==> Clean(entries[i].1)
  }

  lemma TokenClean(e: Entry)
    requires Clean(e.1)
    ensures CleanText(Token(e))
  {
    KeyIsKey(e.0);
  }

  /** The search over the line finds the first entry with the key. */
  lemma {:induction false} LookupFinds(entries: seq<Entry>, k: Key)
    requires CleanEntries(entries)
    ensures Lookup(Join(TokensOf(entries)), KeyText(k)) == Find(entries, k)
    decreases |entries|
  {
    if entries != [] {
      var e, rest := entries[0], entries[1..];
      var tokens := TokensOf(entries);
      assert tokens[1..] == TokensOf(rest) && tokens[0] == Token(e);
      LookupFinds(rest, k);
      TokenClean(e);
      KeyIsKey(k);
      KeyIsKey(e.0);
      BeginsWithKey(KeyText(k), KeyText(e.0), e.1);
      if KeyText(k) == KeyText(e.0) {
        KeysDiffer(k, e.0);
      }
      if rest == [] {
        LookupOne(Token(e), KeyText(k));
      } else {
        TokenClean(rest[0]);
        JoinStarts(rest);
        LookupFirst(Token(e), Join(TokensOf(rest)), KeyText(k));
      }
    }
  }

  lemma JoinStarts(entries: seq<Entry>)
    requires entries != [] && CleanText(Token(entries[0]))
    ensures Join(TokensOf(entries)) != [] && Join(TokensOf(entries))[0] != ' '
  {
  }

  lemma LookupOne(token: Text, key: Text)
    requires CleanText(token) && key != []
    ensures Lookup(token, key) == if Begins(token, key) then Some(token[|key|..]) else None
  {
    TokenEnds(token, |token|);
    assert token[..|token|] == token && token[|token|..] == [];
  }

  lemma LookupFirst(token: Text, rest: Text, key: Text)
    requires CleanText(token) && key != [] && rest != [] && rest[0] != ' '
    ensures Lookup(token + [' '] + rest, key) == if Begins(token, key) then Some(token[|key|..]) else Lookup(rest, key)
  {
    hide Lookup, TokenLength, Blanks, Begins;
    var s := token + [' '] + rest;
    var n := |token|;
    assert forall i | 0 <= i < n :: s[i] == token[i];
    assert s[n] == ' ' && s[..n] == token && s[n..] == [' '] + rest;
    TokenEnds(s, n);
    BlanksEnd([' '] + rest, 1);
    assert s[n..][1..] == rest;
    LookupUnfold(s, n, token, 1, rest, key);
  }

  // ---------------------------------------------------------------- the whole line

  function LineEntries(d: Descriptor): seq<Entry>
    requires Printable(d) && d.command != []
  {
    DEFAULT_ENTRIES + ExecutionEntries(d)
  }

  lemma {:induction false} JoinFlat(a: seq<Text>, b: seq<Text>)
    requires a != [] && b != []
    ensures Join([Join(a)] + b) == Join(a + b) == Join(a) + [' '] + Join(b)
    decreases |a|
  {
    assert ([Join(a)] + b)[1..] == b && (a + b)[1..] == a[1..] + b;
    if |a| == 1 {
      assert a[1..] + b == b;
    } else {
      JoinFlat(a[1..], b);
      var front := a[0] + [' '];
      assert front + (Join(a[1..]) + [' '] + Join(b)) == (front + Join(a[1..])) + [' '] + Join(b);
    }
  }

  lemma JoinNext(e: Entry, rest: seq<Entry>)
    requires rest != []
    ensures Join(TokensOf([e] + rest)) == Token(e) + [' '] + Join(TokensOf(rest))
  {
    assert ([e] + rest)[1..] == rest;
    assert TokensOf([e] + rest)[1..] == TokensOf(rest);
  }

  /** The default line is the line of the default tokens. */
  lemma DefaultLine()
    ensures Join(TokensOf(DEFAULT_ENTRIES)) == DEFAULT_LINE
  {
    var e4: seq<Entry> := [(Profile, "development")];
    var e3: seq<Entry> := [(Root, "overlay")] + e4;
    var e2: seq<Entry> := [(Rdinit, "/init")] + e3;
    var e1: seq<Entry> := [(Console, "hvc0")] + e2;
    JoinNext((Root, "overlay"), e4);
    JoinNext((Rdinit, "/init"), e3);
    JoinNext((Console, "hvc0"), e2);
    JoinNext((Console, "ttyS0"), e1);
    assert DEFAULT_ENTRIES == [(Console, "ttyS0")] + e1;
    assert TokensOf(e4) == [Token(e4[0])];
  }

  lemma PrintedLine(u: Library, d: Descriptor)
    requires Printable(d) && Problem(u, d) == None
    ensures Materialized(u, d, Some(DEFAULT_LINE)) == Result.Ok(Some(Join(TokensOf(LineEntries(d)))))
  {
    DefaultLine();
    TokensAppend(DEFAULT_ENTRIES, ExecutionEntries(d));
    JoinFlat(TokensOf(DEFAULT_ENTRIES), TokensOf(ExecutionEntries(d)));
  }

  // ---------------------------------------------------------------- entries are clean

  lemma {:induction false} NumberedClean(arguments: bool, values: seq<Text>, i: nat)
    requires AllBytes(values)
    ensures CleanEntries(Numbered(arguments, values, i))
    decreases |values|
  {
    if values != [] {
      EncodeClean(values[0]);
      NumberedClean(arguments, values[1..], i + 1);
    }
  }

  lemma LineClean(d: Descriptor)
    requires Printable(d) && d.command != []
    ensures CleanEntries(LineEntries(d))
  {
    hide Encode, Numbered, Decimal;
    NumberedClean(true, d.command, 0);
    NumberedClean(false, Assignments(d.environment), 0);
    EncodeClean(d.command[0]);
    EncodeClean(d.directory);
    DecimalValue(d.uid);
    DecimalValue(d.gid);
  }

  lemma {:induction false} JoinClean(entries: seq<Entry>)
    requires CleanEntries(entries)
    ensures NoNul(Join(TokensOf(entries))) && '\n' !in Join(TokensOf(entries))
    decreases |entries|
  {
    if entries != [] {
      TokenClean(entries[0]);
      JoinClean(entries[1..]);
      assert TokensOf(entries)[1..] == TokensOf(entries[1..]);
    }
  }

  /** Init's buffer holds the whole line, with or without the newline that ends `/proc/cmdline`. */
  lemma LineRead(line: Text, file: Text)
    requires NoNul(line) && '\n' !in line && |line| < CMDLINE_SIZE && (file == line || file == line + "\n")
    ensures Line(file) == line
  {
    if file == line + "\n" && |file| < CMDLINE_SIZE {
      assert file[..|file| - 1] == line;
    } else if file == line + "\n" {
      assert file[..CMDLINE_SIZE - 1] == line;
    }
  }

  // ---------------------------------------------------------------- finding the entries

  lemma {:induction false} FindAppend(a: seq<Entry>, b: seq<Entry>, k: Key)
    ensures Find(a + b, k) == if Find(a, k).Some? then Find(a, k) else Find(b, k)
    decreases |a|
  {
    if a == [] {
      assert a + b == b;
    } else {
      assert (a + b)[1..] == a[1..] + b;
      FindAppend(a[1..], b, k);
    }
  }

  lemma {:induction false} FindNumbered(arguments: bool, values: seq<Text>, i: nat, k: Key)
    requires AllBytes(values)
    ensures Find(Numbered(arguments, values, i), k) ==
            if arguments && k.Arg? && i <= k.index < i + |values| then Some(Encode(values[k.index - i]))
            else if !arguments && k.Env? && i <= k.index < i + |values| then Some(Encode(values[k.index - i]))
            else None
    decreases |values|
  {
    if values != [] {
      FindNumbered(arguments, values[1..], i + 1, k);
    }
  }

  lemma FindInOne(one: seq<Entry>, k: Key)
    requires |one| == 1
    ensures Find(one, k) == if one[0].0 == k then Some(one[0].1) else None
  {
  }

  /** The value the line has for each key that init asks for. */
  lemma FindOnLine(d: Descriptor, k: Key)
    requires Printable(d) && d.command != [] && (k.Exec? || k.Arg? || k.Env? || k.Directory? || k.UserId? || k.GroupId?)
    ensures Find(LineEntries(d), k) ==
            match k
            case Exec => Some(Encode(d.command[0]))
            case Arg(i) => (if i < |d.command| then Some(Encode(d.command[i])) else None)
            case Env(i) => (if i < |d.environment| then Some(Encode(Assignments(d.environment)[i])) else None)
            case Directory => Some(Encode(d.directory))
            case UserId => Some(Decimal(d.uid))
            case GroupId => Some(Decimal(d.gid))
            case _ => None
  {
    hide Encode, Decimal, Find, Numbered, Assignments;
    var exec: seq<Entry> := [(Exec, Encode(d.command[0]))];
    var args, envs := Numbered(true, d.command, 0), Numbered(false, Assignments(d.environment), 0);
    var last: seq<Entry> := [(Directory, Encode(d.directory)), (UserId, Decimal(d.uid)), (GroupId, Decimal(d.gid))];
    FindAppend(DEFAULT_ENTRIES, ExecutionEntries(d), k);
    FindAppend(exec + args + envs, last, k);
    FindAppend(exec + args, envs, k);
    FindAppend(exec, args, k);
    FindNumbered(true, d.command, 0, k);
    FindNumbered(false, Assignments(d.environment), 0, k);
    FindInDefault(k);
    FindInLast(last, k);
    FindInOne(exec, k);
  }

  lemma FindInDefault(k: Key)
    requires k.Exec? || k.Arg? || k.Env? || k.Directory? || k.UserId? || k.GroupId?
    ensures Find(DEFAULT_ENTRIES, k) == None
  {
    FindAbsent(DEFAULT_ENTRIES, k);
  }

  lemma {:induction false} FindAbsent(entries: seq<Entry>, k: Key)
    requires forall i :: 0 <= i < |entries| ==> entries[i].0 != k
    ensures Find(entries, k) == None
    decreases |entries|
  {
    if entries != [] {
      FindAbsent(entries[1..], k);
    }
  }

  lemma FindInLast(last: seq<Entry>, k: Key)
    requires |last| == 3 && last[0].0 == Directory && last[1].0 == UserId && last[2].0 == GroupId
    ensures Find(last, k) == match k
                             case Directory => Some(last[0].1)
                             case UserId => Some(last[1].1)
                             case GroupId => Some(last[2].1)
                             case _ => None
  {
    var b, c := last[1..], last[2..];
    assert b[0] == last[1] && b[1..] == c && c[0] == last[2] && c[1..] == [];
    assert Find(c, k) == if k == GroupId then Some(last[2].1) else None;
    assert Find(b, k) == if k == UserId then Some(last[1].1) else Find(c, k);
  }

  // ---------------------------------------------------------------- the round trip

  /** The encoded text fits init's buffer. */
  predicate Short(t: Text)
    requires IsBytes(t)
  {
    |Encode(t)| < VALUE_SIZE
  }

  /** The values up to the first one that is too long, and no more than init has room for. */
  function Kept(values: seq<Text>, room: nat): seq<Text>
    requires AllBytes(values)
    decreases room
  {
    if room == 0 || values == [] || !Short(values[0]) then [] else [values[0]] + Kept(values[1..], room - 1)
  }

  /** The assignments up to the first one that is too long or that init does not take for one. */
  function KeptEntries(values: seq<Text>, room: nat): seq<Text>
    requires AllBytes(values)
    decreases room
  {
    if room == 0 || values == [] || !Short(values[0]) || !ValidAssignment(values[0]) then []
    else [values[0]] + KeptEntries(values[1..], room - 1)
  }

  /** What init runs for an environment, whatever the sizes are. */
  function Received(d: Descriptor): Config
    requires Printable(d) && d.command != []
  {
    if !Short(d.command[0]) || !ValidExec(d.command[0]) then DEFAULT
    else
      var envs := KeptEntries(Assignments(d.environment), MAX_ENV);
      Config(Interactive(Kept(d.command, MAX_ARGS)), if envs == [] then DEFAULT_ENV else envs,
             if Short(d.directory) then d.directory else "/", d.uid, d.gid)
  }

  /** What the descriptor asks for: a bare shell gets `-i`, and an empty environment the default one. */
  function Intended(d: Descriptor): Config {
    var environment := if d.environment == [] then DEFAULT_ENV else Assignments(d.environment);
    Config(Interactive(d.command), environment, d.directory, d.uid, d.gid)
  }

  /** `/proc/cmdline` after a boot with the printed line, which fits the read buffer. */
  ghost predicate BootedWith(u: Library, d: Descriptor, file: Text)
    requires Printable(d) && Problem(u, d) == None
  {
    var line := Materialized(u, d, Some(DEFAULT_LINE)).value.value;
    |line| < CMDLINE_SIZE && (file == line || file == line + "\n")
  }

  lemma LineLookup(u: Library, d: Descriptor, file: Text, k: Key)
    requires Printable(d) && Problem(u, d) == None && BootedWith(u, d, file)
    ensures file != [] && Lookup(Line(file), KeyText(k)) == Find(LineEntries(d), k)
  {
    hide LineEntries, Lookup, Find, Join, KeyText;
    var line := Join(TokensOf(LineEntries(d)));
    PrintedLine(u, d);
    LineClean(d);
    JoinClean(LineEntries(d));
    LineRead(line, file);
    LookupFinds(LineEntries(d), k);
    LineNotEmpty(d);
  }

  lemma LineNotEmpty(d: Descriptor)
    requires Printable(d) && d.command != []
    ensures Join(TokensOf(LineEntries(d))) != []
  {
    LineClean(d);
    TokenClean(LineEntries(d)[0]);
    JoinStarts(LineEntries(d));
  }

  /** A text sent under a key arrives unless it is too long. */
  lemma TextArrives(u: Library, d: Descriptor, file: Text, k: Key, t: Text)
    requires Printable(d) && Problem(u, d) == None && BootedWith(u, d, file)
    requires IsBytes(t) && NoNul(t) && Find(LineEntries(d), k) == Some(Encode(t))
    ensures Decoded(file, KeyText(k), VALUE_SIZE) == if Short(t) then Some(t) else None
  {
    hide LineEntries, Lookup, Find, Encode, Decode, BootedWith, KeyText;
    LineLookup(u, d, file, k);
    DecodeEncode(t);
  }

  lemma NumberArrives(u: Library, d: Descriptor, file: Text, k: Key, n: nat)
    requires Printable(d) && Problem(u, d) == None && BootedWith(u, d, file)
    requires n < 0x1_0000_0000 && Find(LineEntries(d), k) == Some(Decimal(n))
    ensures Unsigned(file, KeyText(k)) == Some(n)
  {
    hide LineEntries, Lookup, Find, Decimal, BootedWith, KeyText, Strtoul;
    LineLookup(u, d, file, k);
    StrtoulDecimal(n);
    assert PowerOfTen(10) == 10_000_000_000 by {
      assert PowerOfTen(5) == 100_000;
    }
    DecimalLength(n, 10, PowerOfTen(10));
  }

  lemma ArgumentPlain(u: Library, d: Descriptor, i: nat)
    requires Printable(d) && Problem(u, d) == None && i < |d.command|
    ensures IsBytes(d.command[i]) && NoNul(d.command[i])
  {
  }

  lemma KeptFrom(values: seq<Text>, i: nat, room: nat)
    requires AllBytes(values) && i <= |values| && room > 0
    ensures i == |values| ==> Kept(values[i..], room) == []
    ensures i < |values| ==>
              Kept(values[i..], room) == if Short(values[i]) then [values[i]] + Kept(values[i + 1..], room - 1) else []
  {
    hide Short;
    if i < |values| {
      assert values[i..][0] == values[i] && values[i..][1..] == values[i + 1..];
    }
  }

  lemma {:induction false} ArgsArrive(u: Library, d: Descriptor, file: Text, i: nat)
    requires Printable(d) && Problem(u, d) == None && BootedWith(u, d, file) && i <= MAX_ARGS && ValidExec(d.command[0])
    ensures Args(file, i) == if i <= |d.command| then Kept(d.command[i..], MAX_ARGS - i) else []
    decreases MAX_ARGS - i
  {
    hide LineEntries, Find, Decoded, BootedWith, Decimal, Short, Problem, Args, ValidExec;
    ProblemFree(u, d);
    ArgsAt(file, i);
    if i < MAX_ARGS {
      ArgsArrive(u, d, file, i + 1);
      FindOnLine(d, Arg(i));
      if i <= |d.command| {
        KeptFrom(d.command, i, MAX_ARGS - i);
      }
      hide Kept;
      if i < |d.command| {
        ArgumentPlain(u, d, i);
        TextArrives(u, d, file, Arg(i), d.command[i]);
      } else {
        NothingArrives(u, d, file, Arg(i));
      }
    }
  }

  lemma NothingArrives(u: Library, d: Descriptor, file: Text, k: Key)
    requires Printable(d) && Problem(u, d) == None && BootedWith(u, d, file) && Find(LineEntries(d), k) == None
    ensures Decoded(file, KeyText(k), VALUE_SIZE) == None
  {
    hide LineEntries, Lookup, Find, BootedWith;
    LineLookup(u, d, file, k);
  }

  lemma AssignmentValid(u: Library, d: Descriptor, i: nat)
    requires Printable(d) && Problem(u, d) == None && i < |d.environment|
    ensures NoNul(Assignments(d.environment)[i])
  {
    hide Assignments;
    AssignmentAt(d.environment, i);
    var e := d.environment[i];
    assert ValidEntry(u, e.0, e.1);
    assert Assignment(e)[|e.0|] == '=' && Assignment(e)[0] == e.0[0];
  }

  lemma {:induction false} EnvsArrive(u: Library, d: Descriptor, file: Text, i: nat)
    requires Printable(d) && Problem(u, d) == None && BootedWith(u, d, file) && i <= MAX_ENV
    ensures Envs(file, i)
          == if i <= |d.environment| then KeptEntries(Assignments(d.environment)[i..], MAX_ENV - i) else []
    decreases MAX_ENV - i
  {
    hide LineEntries, Find, Decoded, BootedWith, Decimal, Assignments, ValidAssignment;
    if i < MAX_ENV {
      var values := Assignments(d.environment);
      EnvsArrive(u, d, file, i + 1);
      FindOnLine(d, Env(i));
      if i < |d.environment| {
        AssignmentValid(u, d, i);
        TextArrives(u, d, file, Env(i), values[i]);
        assert values[i..][0] == values[i] && values[i..][1..] == values[i + 1..];
      } else {
        NothingArrives(u, d, file, Env(i));
      }
    }
  }

  /** The configuration, once each of its parts has arrived. */
  lemma SelectedFrom(d: Descriptor, file: Text)
    requires Printable(d) && d.command != [] && d.directory != [] && d.directory[0] == '/'
    requires Decoded(file, KeyText(Exec), VALUE_SIZE) == if Short(d.command[0]) then Some(d.command[0]) else None
    requires Decoded(file, KeyText(Directory), VALUE_SIZE) == if Short(d.directory) then Some(d.directory) else None
    requires Unsigned(file, KeyText(UserId)) == Some(d.uid) && Unsigned(file, KeyText(GroupId)) == Some(d.gid)
    requires ValidExec(d.command[0]) ==> Args(file, 0) == Kept(d.command, MAX_ARGS)
    requires Envs(file, 0) == KeptEntries(Assignments(d.environment), MAX_ENV)
    ensures Selected(file) == Received(d)
  {
    KeptStarts(d.command);
    hide Decoded, Unsigned, Encode, Decimal, Args, Envs, Interactive, Kept, KeptEntries, Assignments, Short, ValidExec;
  }

  lemma KeptStarts(values: seq<Text>)
    requires AllBytes(values) && values != []
    ensures Short(values[0]) ==> Kept(values, MAX_ARGS) != []
  {
  }

  /**
   For every descriptor the printer accepts whose line fits the read buffer, init runs exactly
   `Received(d)`: arguments and environment entries are cut at the first one that is too long or has no
   room, a directory that is too long becomes `/`, and a command that is too long loses everything.
   */
  lemma InitReceives(u: Library, d: Descriptor, file: Text)
    requires Printable(d) && Problem(u, d) == None && BootedWith(u, d, file)
    ensures Selected(file) == Received(d)
  {
    hide LineEntries, Find, Decoded, BootedWith, Unsigned, Encode, Decimal, Args, Envs, Problem, ValidExec;
    hide Selected, Received, Kept, KeptEntries, Short, Assignments;
    ProblemFree(u, d);
    FindOnLine(d, Exec);
    FindOnLine(d, Directory);
    FindOnLine(d, UserId);
    FindOnLine(d, GroupId);
    TextArrives(u, d, file, Exec, d.command[0]);
    TextArrives(u, d, file, Directory, d.directory);
    NumberArrives(u, d, file, UserId, d.uid);
    NumberArrives(u, d, file, GroupId, d.gid);
    if ValidExec(d.command[0]) {
      ArgsArrive(u, d, file, 0);
    }
    EnvsArrive(u, d, file, 0);
    assert d.command[0..] == d.command && Assignments(d.environment)[0..] == Assignments(d.environment);
    SelectedFrom(d, file);
  }

  lemma ProblemFree(u: Library, d: Descriptor)
    requires Printable(d) && Problem(u, d) == None
    ensures d.command != [] && d.command[0] != [] && NoNul(d.command[0])
    ensures d.directory != [] && d.directory[0] == '/' && NoNul(d.directory)
  {
    AbsoluteIs(u, d.directory);
  }

  /** What is absolute to Swift is so to init. */
  lemma AbsoluteIs(u: Library, t: Text)
    requires IsAbsolute(u, t) && IsBytes(t)
    ensures t != [] && t[0] == '/'
  {
  }

  // ---------------------------------------------------------------- when nothing is lost

  predicate AllShort(values: seq<Text>)
    requires AllBytes(values)
  {
    forall i :: 0 <= i < |values| ==> Short(values[i])
  }

  lemma {:induction false} KeptExactly(values: seq<Text>, room: nat)
    requires AllBytes(values)
    ensures Kept(values, room) == values <==> |values| <= room && AllShort(values)
    ensures Kept(values, room) <= values && AllShort(Kept(values, room)) && |Kept(values, room)| <= room
    decreases room
  {
    if room > 0 && values != [] && Short(values[0]) {
      KeptExactly(values[1..], room - 1);
      var k := Kept(values[1..], room - 1);
      assert [values[0]] + values[1..] == values;
      assert k == values[1..] <==> [values[0]] + k == values;
      assert forall i | 0 < i < |values| :: values[i] == values[1..][i - 1];
    } else if room > 0 && values != [] {
      assert !AllShort(values);
    }
  }

  /** Init takes every assignment. */
  predicate AllTaken(values: seq<Text>)
    requires AllBytes(values)
  {
    forall i :: 0 <= i < |values| ==> Short(values[i]) && ValidAssignment(values[i])
  }

  lemma {:induction false} EntriesExactly(values: seq<Text>, room: nat)
    requires AllBytes(values)
    ensures KeptEntries(values, room) == values <==> |values| <= room && AllTaken(values)
    ensures KeptEntries(values, room) <= values && AllTaken(KeptEntries(values, room))
    ensures |KeptEntries(values, room)| <= room
    decreases room
  {
    hide Short, ValidAssignment;
    if room > 0 && values != [] && Short(values[0]) && ValidAssignment(values[0]) {
      EntriesExactly(values[1..], room - 1);
      var k := KeptEntries(values[1..], room - 1);
      assert [values[0]] + values[1..] == values;
      assert k == values[1..] <==> [values[0]] + k == values;
      assert forall i | 0 < i < |values| :: values[i] == values[1..][i - 1];
    } else if room > 0 && values != [] {
      assert !AllTaken(values);
    }
  }

  /** What init can take: sizes, a command it can run, and assignments that have a name. */
  predicate Fits(d: Descriptor)
    requires Printable(d) && d.command != []
  {
    && |d.command| <= MAX_ARGS && AllShort(d.command) && ValidExec(d.command[0])
    && |d.environment| <= MAX_ENV && AllTaken(Assignments(d.environment)) && Short(d.directory)
  }

  lemma ShortText(t: Text)
    requires IsBytes(t) && |t| < VALUE_SIZE / 3
    ensures Short(t)
  {
    EncodeClean(t);
  }

  /**
   What init runs is what the descriptor asks for exactly when it has at most 16 arguments and 32
   environment entries, every encoded value is shorter than 2048 bytes, a command with a slash in it
   begins with one, and no name begins with an equals sign. The last two can fail only where a scalar
   has joined the slash or the sign, so that the printer does not see it.
   */
  lemma RoundTripExactly(u: Library, d: Descriptor, file: Text)
    requires Printable(d) && Problem(u, d) == None && BootedWith(u, d, file)
    ensures d.command != [] && (Selected(file) == Intended(d) <==> Fits(d))
  {
    ProblemFree(u, d);
    InitReceives(u, d, file);
    hide Problem, BootedWith, Selected, Encode, Short, ValidExec;
    hide Kept, KeptEntries, Interactive, AllTaken, AllShort, Assignments;
    if !Short(d.command[0]) || !ValidExec(d.command[0]) {
      LostCommand(d);
    } else {
      ArgumentsExactly(d.command);
      EnvironmentExactly(Assignments(d.environment));
      DirectoryExactly(d.directory);
      NoAssignments(d);
    }
  }

  lemma NoAssignments(d: Descriptor)
    ensures d.environment == [] <==> Assignments(d.environment) == []
  {
  }

  lemma LostCommand(d: Descriptor)
    requires Printable(d) && d.command != [] && (!Short(d.command[0]) || !ValidExec(d.command[0]))
    ensures DEFAULT != Intended(d) && !Fits(d)
  {
    ShortText("/bin/sh");
    hide Short, Assignments, AllTaken;
    assert d.command[0] != "/bin/sh";
  }

  lemma ArgumentsExactly(values: seq<Text>)
    requires AllBytes(values) && values != [] && Short(values[0])
    ensures Interactive(Kept(values, MAX_ARGS)) == Interactive(values) <==> |values| <= MAX_ARGS && AllShort(values)
  {
    KeptExactly(values, MAX_ARGS);
    KeptFirst(values);
    hide Kept, Short, AllShort, Interactive;
    if Interactive(Kept(values, MAX_ARGS)) == Interactive(values) {
      SameShell(Kept(values, MAX_ARGS), values);
      ShellFits(values);
    }
  }

  lemma KeptFirst(values: seq<Text>)
    requires AllBytes(values) && values != [] && Short(values[0])
    ensures Kept(values, MAX_ARGS) != []
  {
    hide Short;
  }

  lemma ShellFits(values: seq<Text>)
    requires AllBytes(values)
    ensures values == SHELL ==> |values| <= MAX_ARGS && AllShort(values)
  {
    ShortDefaults();
    hide Short;
  }

  lemma SameShell(kept: seq<Text>, values: seq<Text>)
    requires kept <= values && kept != [] && Interactive(kept) == Interactive(values)
    ensures kept == values || values == SHELL
  {
    assert |values| == |kept| ==> kept == values;
  }

  lemma EnvironmentExactly(values: seq<Text>)
    requires AllBytes(values)
    ensures var envs := KeptEntries(values, MAX_ENV);
            (if envs == [] then DEFAULT_ENV else envs) == (if values == [] then DEFAULT_ENV else values)
            <==> |values| <= MAX_ENV && AllTaken(values)
  {
    EntriesExactly(values, MAX_ENV);
    DefaultsTaken();
    hide KeptEntries, Short, ValidAssignment;
  }

  lemma DirectoryExactly(path: Text)
    requires IsBytes(path)
    ensures (if Short(path) then path else "/") == path <==> Short(path)
  {
    ShortText("/");
    hide Short;
  }

  lemma DefaultsTaken()
    ensures AllBytes(DEFAULT_ENV) && AllTaken(DEFAULT_ENV) && |DEFAULT_ENV| <= MAX_ENV
  {
    ShortDefaults();
    hide Short;
    assert "HOME=/root"[4] == '=' && "PATH=/bin:/usr/bin:/sbin:/usr/sbin"[4] == '=' && "TERM=xterm-256color"[4] == '=';
  }

  lemma ShortDefaults()
    ensures AllBytes(SHELL) && AllBytes(DEFAULT_ENV) && AllShort(SHELL) && AllShort(DEFAULT_ENV)
  {
    hide Short, Encode;
    ShortText("/bin/sh");
    ShortText("-i");
    ShortText("HOME=/root");
    ShortText("PATH=/bin:/usr/bin:/sbin:/usr/sbin");
    ShortText("TERM=xterm-256color");
  }

  /** "a/" and U+0301, in bytes. */
  const JOINED: Text := ['a', '/', 0xcc as char, 0x81 as char]

  /**
   Concrete failure: the printer sees no slash in this command and accepts it, and init sees one and runs its
   shell.
   */
  lemma JoinedSlashRefused(u: Library)
    requires [0xcc, 0x81] in u.extenders
    ensures var d := Descriptor([JOINED], [], "/", 0, 0);
            Printable(d) && Problem(u, d) == None && !Fits(d) && !ValidExec(JOINED)
  {
    var d := Descriptor([JOINED], [], "/", 0, 0);
    assert Assignments([]) == [];
    assert Utf8(JOINED)[2..] == [0xcc, 0x81];
    assert [0xcc, 0x81] <= Utf8(JOINED)[2..] && SwiftText.Extends(u, Utf8(JOINED)[2..]);
    assert !SwiftText.Lone(u, Utf8(JOINED), 1);
    assert JOINED[1] == '/';
    RootIsAbsolute(u);
    hide SwiftText.Lone, SwiftText.Extends;
    assert BadArgument([JOINED]) == BadArgument([JOINED][1..]) == None;
  }

  lemma RootIsAbsolute(u: Library)
    ensures IsAbsolute(u, "/")
  {
    assert Utf8("/") == [SwiftText.SLASH] && Utf8("/")[1..] == [];
    SwiftText.NothingExtends(u, []);
  }
}
