/** How init finds the command to run on the kernel command line (OrlixOS init/init.c). */
module InitCommand {
  import opened HostTypes
  import opened PercentCode
  import opened DecimalText

  const CMDLINE_SIZE: nat := 16384
  const MAX_ARGS: nat := 16
  const MAX_ENV: nat := 32
  const VALUE_SIZE: nat := 2048
  const NUMBER_SIZE: nat := 32

  // ---------------------------------------------------------------- tokens of the line

  predicate NoNul(t: Text) {
    forall i :: 0 <= i < |t| ==> t[i] != NUL
  }

  /** The C string at the start of a text. */
  function CString(t: Text): (r: Text)
    ensures r <= t && NoNul(r) && (NoNul(t) ==> r == t)
  {
    if t == [] || t[0] == NUL then [] else [t[0]] + CString(t[1..])
  }

  /** What the read buffer holds of `/proc/cmdline`. */
  function Line(file: Text): Text {
    var bytes := if |file| < CMDLINE_SIZE then file else file[..CMDLINE_SIZE - 1];
    CString(if bytes != [] && bytes[|bytes| - 1] == '\n' then bytes[..|bytes| - 1] else bytes)
  }

  function TokenLength(s: Text): (n: nat)
    ensures n <= |s| && (forall i :: 0 <= i < n ==> s[i] != ' ') && (n < |s| ==> s[n] == ' ')
  {
    if s == [] || s[0] == ' ' then 0 else 1 + TokenLength(s[1..])
  }

  function Blanks(s: Text): (n: nat)
    ensures n <= |s| && (forall i :: 0 <= i < n ==> s[i] == ' ') && (n < |s| ==> s[n] != ' ')
  {
    if s == [] || s[0] != ' ' then 0 else 1 + Blanks(s[1..])
  }

  /** `strncmp` of the key with the start of a token. */
  predicate Begins(token: Text, key: Text) {
    |key| <= |token| && token[..|key|] == key
  }

  /** What follows the key in the first token that begins with it. */
  function Lookup(s: Text, key: Text): Option<Text>
    decreases |s|
  {
    if s == [] then None
    else
      var n := TokenLength(s);
      if Begins(s[..n], key) then Some(s[..n][|key|..])
      else
        Lookup(s[n..][Blanks(s[n..])..], key)
  }

  /** `read_cmdline_value` into a buffer of the given size. */
  function Value(file: Text, key: Text, size: nat): (r: Option<Text>)
    ensures r.Some? ==> |r.value| < size
  {
    if size == 0 || file == [] then None
    else match Lookup(Line(file), key)
      case None => None
      case Some(v) => if |v| < size then Some(v) else None
  }

  /** `read_cmdline_decoded`. */
  function Decoded(file: Text, key: Text, size: nat): Option<Text> {
    match Value(file, key, size)
    case None => None
    case Some(v) =>
      match Decode(v)
      case None => None
      case Some(d) => Some(CString(d))
  }

  /** `read_cmdline_unsigned`. */
  function Unsigned(file: Text, key: Text): Option<nat> {
    match Value(file, key, NUMBER_SIZE)
    case None => None
    case Some(v) => Strtoul(v)
  }

  // ---------------------------------------------------------------- the command

  predicate ValidExec(path: Text) {
    path != [] && (path[0] == '/' || '/' !in path)
  }

  predicate ValidDirectory(path: Text) {
    path != [] && path[0] == '/'
  }

  predicate ValidAssignment(value: Text) {
    '=' in value && value[0] != '='
  }

  function ArgKey(i: nat): Text {
    "orlix.argv" + Decimal(i) + "="
  }

  function EnvKey(i: nat): Text {
    "orlix.env" + Decimal(i) + "="
  }

  /** What init runs. */
  datatype Config = Config(argv: seq<Text>, envp: seq<Text>, cwd: Text, uid: nat, gid: nat)

  const SHELL: seq<Text> := ["/bin/sh", "-i"]
  const DEFAULT_ENV: seq<Text> := ["HOME=/root", "PATH=/bin:/usr/bin:/sbin:/usr/sbin", "TERM=xterm-256color"]
  const DEFAULT := Config(SHELL, DEFAULT_ENV, "/", 0, 0)

  /** Arguments from index `i` on, up to the first one that cannot be used. */
  function Args(file: Text, i: nat): seq<Text>
    decreases MAX_ARGS - i
  {
    if i >= MAX_ARGS then []
    else match Decoded(file, ArgKey(i), VALUE_SIZE)
      case None => []
      case Some(v) => if i == 0 && !ValidExec(v) then [] else [v] + Args(file, i + 1)
  }

  function Envs(file: Text, i: nat): seq<Text>
    decreases MAX_ENV - i
  {
    if i >= MAX_ENV then []
    else match Decoded(file, EnvKey(i), VALUE_SIZE)
      case None => []
      case Some(v) => if ValidAssignment(v) then [v] + Envs(file, i + 1) else []
  }

  lemma ArgsAt(file: Text, i: nat)
    ensures i >= MAX_ARGS || Decoded(file, ArgKey(i), VALUE_SIZE) == None ==> Args(file, i) == []
    ensures i < MAX_ARGS && Decoded(file, ArgKey(i), VALUE_SIZE).Some? ==>
              var v := Decoded(file, ArgKey(i), VALUE_SIZE).value;
              Args(file, i) == if i == 0 && !ValidExec(v) then [] else [v] + Args(file, i + 1)
  {
    hide Decoded, ArgKey, ValidExec;
  }

  /** Arguments collected so far and those that follow, one step on. */
  lemma ArgsFrom(file: Text, i: nat, front: seq<Text>)
    ensures front == [] ==> front + Args(file, i) == Args(file, i)
    ensures i >= MAX_ARGS || Decoded(file, ArgKey(i), VALUE_SIZE) == None ==> front + Args(file, i) == front
    ensures i < MAX_ARGS && Decoded(file, ArgKey(i), VALUE_SIZE).Some? ==>
              var v := Decoded(file, ArgKey(i), VALUE_SIZE).value;
              front + Args(file, i)
              == if i == 0 && !ValidExec(v) then front else (front + [v]) + Args(file, i + 1)
  {
    hide Decoded, ArgKey, ValidExec;
    if i < MAX_ARGS && Decoded(file, ArgKey(i), VALUE_SIZE).Some? {
      var v := Decoded(file, ArgKey(i), VALUE_SIZE).value;
      assert front + ([v] + Args(file, i + 1)) == (front + [v]) + Args(file, i + 1);
    }
  }

  lemma EnvsFrom(file: Text, i: nat, front: seq<Text>)
    ensures front == [] ==> front + Envs(file, i) == Envs(file, i)
    ensures i >= MAX_ENV || Decoded(file, EnvKey(i), VALUE_SIZE) == None ==> front + Envs(file, i) == front
    ensures i < MAX_ENV && Decoded(file, EnvKey(i), VALUE_SIZE).Some? ==>
              var v := Decoded(file, EnvKey(i), VALUE_SIZE).value;
              front + Envs(file, i) == if ValidAssignment(v) then (front + [v]) + Envs(file, i + 1) else front
  {
    hide Decoded, EnvKey, ValidAssignment;
    if i < MAX_ENV && Decoded(file, EnvKey(i), VALUE_SIZE).Some? {
      var v := Decoded(file, EnvKey(i), VALUE_SIZE).value;
      assert front + ([v] + Envs(file, i + 1)) == (front + [v]) + Envs(file, i + 1);
    }
  }

  /** A bare shell is made interactive. */
  function Interactive(argv: seq<Text>): seq<Text> {
    if argv == ["/bin/sh"] then SHELL else argv
  }

  /** `selected_command_config`. */
  function Selected(file: Text): Config {
    match Decoded(file, "orlix.exec=", VALUE_SIZE)
    case None => DEFAULT
    case Some(exec) =>
      if !ValidExec(exec) then DEFAULT
      else
        var args, envs := Args(file, 0), Envs(file, 0);
        var cwd := Decoded(file, "orlix.cwd=", VALUE_SIZE);
        var uid, gid := Unsigned(file, "orlix.uid="), Unsigned(file, "orlix.gid=");
        Config(Interactive(if args == [] then [exec] else args),
               if envs == [] then DEFAULT_ENV else envs,
               if cwd.Some? && ValidDirectory(cwd.value) then cwd.value else "/",
               if uid.Some? then uid.value else 0,
               if gid.Some? then gid.value else 0)
  }

  // ---------------------------------------------------------------- init's code

  lemma SliceSlice(s: Text, i: nat, j: nat)
    requires i + j <= |s|
    ensures s[i..][j..] == s[i + j..]
  {
  }

  lemma SliceFront(s: Text, i: nat, j: nat)
    requires i + j <= |s|
    ensures s[i..][..j] == s[i..i + j]
  {
  }

  lemma {:induction false} TokenEnds(s: Text, n: nat)
    requires n <= |s| && (forall i :: 0 <= i < n ==> s[i] != ' ') && (n < |s| ==> s[n] == ' ')
    ensures TokenLength(s) == n
  {
  }

  lemma {:induction false} BlanksEnd(s: Text, n: nat)
    requires n <= |s| && (forall i :: 0 <= i < n ==> s[i] == ' ') && (n < |s| ==> s[n] != ' ')
    ensures Blanks(s) == n
  {
  }

  lemma BeginsAt(buffer: Text, cursor: nat, end: nat, key: Text)
    requires cursor <= end <= |buffer|
    ensures Begins(buffer[cursor..end], key) == (cursor + |key| <= end && buffer[cursor..cursor + |key|] == key)
    ensures Begins(buffer[cursor..end], key) ==> buffer[cursor..end][|key|..] == buffer[cursor + |key|..end]
  {
    if cursor + |key| <= end {
      assert buffer[cursor..end][..|key|] == buffer[cursor..cursor + |key|];
    }
  }

  lemma LookupUnfold(s: Text, n: nat, token: Text, blanks: nat, rest: Text, key: Text)
    requires key != [] && s != [] && n == TokenLength(s) && token == s[..n] && blanks == Blanks(s[n..])
    requires rest == s[n..][blanks..]
    ensures Begins(token, key) ==> Lookup(s, key) == Some(token[|key|..])
    ensures !Begins(token, key) ==> Lookup(s, key) == Lookup(rest, key)
  {
  }

  lemma TokenOrBlank(buffer: Text, cursor: nat, end: nat, next: nat)
    requires cursor < |buffer| && end == cursor + TokenLength(buffer[cursor..]) && end <= |buffer|
    requires next == end + Blanks(buffer[end..])
    ensures cursor < next <= |buffer|
  {
  }

  /** One turn of the outer loop: the token at the cursor either has the key or is passed over. */
  lemma LookupAt(buffer: Text, cursor: nat, end: nat, next: nat, key: Text)
    requires key != [] && cursor < |buffer| && end == cursor + TokenLength(buffer[cursor..]) && end <= next <= |buffer|
    requires next == end + Blanks(buffer[end..])
    ensures cursor + |key| <= end && buffer[cursor..cursor + |key|] == key ==>
              Lookup(buffer[cursor..], key) == Some(buffer[cursor + |key|..end])
    ensures !(cursor + |key| <= end && buffer[cursor..cursor + |key|] == key) ==>
              Lookup(buffer[cursor..], key) == Lookup(buffer[next..], key)
  {
    hide Lookup, TokenLength, Blanks, Begins;
    var s := buffer[cursor..];
    SliceFront(buffer, cursor, end - cursor);
    SliceSlice(buffer, cursor, end - cursor);
    SliceSlice(buffer, end, next - end);
    LookupUnfold(s, end - cursor, buffer[cursor..end], next - end, buffer[next..], key);
    BeginsAt(buffer, cursor, end, key);
  }

  method TokenEnd(buffer: Text, cursor: nat) returns (end: nat)
    requires cursor <= |buffer|
    ensures end <= |buffer| && end == cursor + TokenLength(buffer[cursor..])
  {
    end := cursor;
    while end < |buffer| && buffer[end] != ' '
      invariant cursor <= end <= |buffer|
      invariant forall i :: cursor <= i < end ==> buffer[i] != ' '
    {
      end := end + 1;
    }
    TokenEnds(buffer[cursor..], end - cursor);
  }

  method BlankEnd(buffer: Text, start: nat) returns (end: nat)
    requires start <= |buffer|
    ensures end <= |buffer| && end == start + Blanks(buffer[start..])
  {
    end := start;
    while end < |buffer| && buffer[end] == ' '
      invariant start <= end <= |buffer|
      invariant forall i :: start <= i < end ==> buffer[i] == ' '
    {
      end := end + 1;
    }
    BlanksEnd(buffer[start..], end - start);
  }

  /** One token: what follows the key in it, or nothing, and where the next one begins. */
  method ReadToken(buffer: Text, cursor: nat, key: Text) returns (value: Option<Text>, next: nat)
    requires key != [] && cursor < |buffer|
    ensures cursor < next <= |buffer|
    ensures value.Some? ==> Lookup(buffer[cursor..], key) == value
    ensures value.None? ==> Lookup(buffer[cursor..], key) == Lookup(buffer[next..], key)
  {
    hide Lookup, TokenLength, Blanks;
    var end := TokenEnd(buffer, cursor);
    next := BlankEnd(buffer, end);
    TokenOrBlank(buffer, cursor, end, next);
    LookupAt(buffer, cursor, end, next, key);
    value := None;
    if end - cursor >= |key| && buffer[cursor..cursor + |key|] == key {
      value := Some(buffer[cursor + |key|..end]);
    }
  }

  /** `read_cmdline_value`: two cursors walk over the tokens of the line. */
  method ReadCmdlineValue(file: Text, key: Text, size: nat) returns (value: Option<Text>)
    requires key != []
    ensures value == Value(file, key, size)
  {
    if size == 0 || file == [] {
      return None;
    }
    var buffer := Line(file);
    var cursor := 0;
    assert buffer[0..] == buffer && Lookup([], key) == None;
    hide Lookup, TokenLength, Blanks;
    while cursor < |buffer|
      invariant cursor <= |buffer| && Lookup(buffer[cursor..], key) == Lookup(buffer, key)
    {
      var found, next := ReadToken(buffer, cursor, key);
      if found.Some? {
        return if |found.value| >= size then None else found;
      }
      cursor := next;
    }
    assert buffer[cursor..] == [];
    value := None;
  }

  lemma {:induction false} LookupNoNul(s: Text, key: Text)
    requires key != [] && NoNul(s)
    ensures Lookup(s, key).Some? ==> NoNul(Lookup(s, key).value)
    decreases |s|
  {
    if s != [] && !Begins(s[..TokenLength(s)], key) {
      LookupNoNul(s[TokenLength(s)..][Blanks(s[TokenLength(s)..])..], key);
    }
  }

  lemma {:induction false} CStringStops(s: Text, n: nat)
    requires n < |s| && s[n] == NUL
    ensures CString(s) == CString(s[..n])
  {
    if n > 0 && s[0] != NUL {
      assert s[..n][1..] == s[1..][..n - 1];
      CStringStops(s[1..], n - 1);
    }
  }

  /** `read_cmdline_decoded`: the value is copied into a buffer and decoded there. */
  method ReadCmdlineDecoded(file: Text, key: Text, size: nat) returns (value: Option<Text>)
    requires key != []
    ensures value == Decoded(file, key, size)
  {
    var found := ReadCmdlineValue(file, key, size);
    if found == None {
      return None;
    }
    var v := found.value;
    var buffer := new char[size](i => if 0 <= i < |v| then v[i] else NUL);
    LookupNoNul(Line(file), key);
    assert EndsAt(buffer[..], |v|) && buffer[..|v|] == v;
    var ok, _ := PercentDecode(buffer, |v|, NUL);
    if !ok {
      return None;
    }
    CStringStops(buffer[..], |Decode(v).value|);
    return Some(CString(buffer[..]));
  }

  method ReadCmdlineUnsigned(file: Text, key: Text, before: nat) returns (value: nat)
    requires key != []
    ensures value == if Unsigned(file, key).Some? then Unsigned(file, key).value else before
  {
    var text := ReadCmdlineValue(file, key, NUMBER_SIZE);
    if text == None {
      return before;
    }
    var parsed := Strtoul(text.value);
    return if parsed.Some? then parsed.value else before;
  }

  /** `struct orlix_command_config`. */
  class CommandConfig {
    var argv: seq<Text>
    var envp: seq<Text>
    var cwd: Text
    var uid: nat
    var gid: nat

    ghost function State(): Config
      reads this
    {
      Config(argv, envp, cwd, uid, gid)
    }

    constructor ()
    {
      argv, envp, cwd, uid, gid := [], [], "", 0, 0;
    }

    method SelectArguments(file: Text, exec: Text)
      modifies this`argv
      ensures argv == Interactive(if Args(file, 0) == [] then [exec] else Args(file, 0))
    {
      CollectArguments(file);
      if |argv| == 0 {
        argv := [exec];
      }
      if |argv| == 1 && argv[0] == "/bin/sh" {
        argv := argv + ["-i"];
      }
    }

    method CollectArguments(file: Text)
      modifies this`argv
      ensures argv == Args(file, 0)
    {
      hide Decoded, Decimal, Args, ValidExec;
      argv := [];
      var index := 0;
      ArgsFrom(file, 0, []);
      while index < MAX_ARGS
        invariant index <= MAX_ARGS && argv + Args(file, index) == Args(file, 0)
      {
        var value := ReadCmdlineDecoded(file, ArgKey(index), VALUE_SIZE);
        ArgsFrom(file, index, argv);
        if value == None || (index == 0 && !ValidExec(value.value)) {
          break;
        }
        argv := argv + [value.value];
        index := index + 1;
      }
      ArgsFrom(file, index, argv);
    }

    method SelectEnvironment(file: Text)
      modifies this`envp
      ensures envp == if Envs(file, 0) == [] then DEFAULT_ENV else Envs(file, 0)
    {
      hide Decoded, Decimal, Envs, ValidAssignment;
      envp := [];
      var index := 0;
      EnvsFrom(file, 0, []);
      while index < MAX_ENV
        invariant index <= MAX_ENV && envp + Envs(file, index) == Envs(file, 0)
      {
        var value := ReadCmdlineDecoded(file, EnvKey(index), VALUE_SIZE);
        EnvsFrom(file, index, envp);
        if value == None || !ValidAssignment(value.value) {
          break;
        }
        envp := envp + [value.value];
        index := index + 1;
      }
      EnvsFrom(file, index, envp);
      if |envp| == 0 {
        envp := DEFAULT_ENV;
      }
    }

    /** `selected_command_config`. */
    method SelectedCommandConfig(file: Text)
      modifies this
      ensures State() == Selected(file)
    {
      argv, envp, cwd, uid, gid := SHELL, DEFAULT_ENV, "/", 0, 0;
      var exec := ReadCmdlineDecoded(file, "orlix.exec=", VALUE_SIZE);
      if exec == None || !ValidExec(exec.value) {
        return;
      }
      SelectArguments(file, exec.value);
      SelectEnvironment(file);
      var directory := ReadCmdlineDecoded(file, "orlix.cwd=", VALUE_SIZE);
      cwd := if directory == None || !ValidDirectory(directory.value) then "/" else directory.value;
      uid := ReadCmdlineUnsigned(file, "orlix.uid=", uid);
      gid := ReadCmdlineUnsigned(file, "orlix.gid=", gid);
    }
  }
}
