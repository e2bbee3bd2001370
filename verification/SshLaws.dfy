/** Laws of the SSH option parser: spelling does not matter, TTY choices exclude each other, printing is undone. */
module SshLaws {
  import opened Text
  import opened Options
  import opened SshOptions

  // ---------- attached and detached options ----------

  /** The parser reaches word `k` expecting an option. */
  ghost predicate OptionPosition(args: seq<string>, k: nat)
    decreases |args|
  {
    k == 0 || (args != [] && !IsCommandWord(args[0]) && Width(args[0]) <= k <= |args| && OptionPosition(args[Width(args[0])..], k - Width(args[0])))
  }

  function Flag(flag: char): string {
    ['-', flag]
  }

  lemma InterchangeHere(inv: Invocation, flag: char, value: string, rest: seq<string>)
    requires TakesValue(flag) && value != ""
    ensures Parse(inv, [Flag(flag) + value] + rest) == Parse(inv, [Flag(flag), value] + rest)
  {
    var attached, detached := [Flag(flag) + value] + rest, [Flag(flag), value] + rest;
    assert attached[0][2..] == value && attached[0][1] == flag && attached[0][0] == '-';
    assert attached[1..] == rest && detached[2..] == rest && detached[1] == value && detached[0] == Flag(flag);
    assert !IsCommandWord(attached[0]) && !IsCommandWord(detached[0]);
  }

  /** The front option reads only its own words. */
  lemma FrontIsLocal(inv: Invocation, pre: seq<string>, s: seq<string>, t: seq<string>)
    requires pre != [] && !IsCommandWord(pre[0]) && Width(pre[0]) <= |pre|
    ensures ApplyFront(inv, pre + s) == ApplyFront(inv, pre + t)
    ensures (pre + s)[Width(pre[0])..] == pre[Width(pre[0])..] + s
    ensures (pre + t)[Width(pre[0])..] == pre[Width(pre[0])..] + t
  {
    assert (pre + s)[0] == pre[0] == (pre + t)[0];
    assert Width(pre[0]) == 2 ==> (pre + s)[1] == pre[1] == (pre + t)[1];
  }

  /**
   * Wherever the parser expects an option, writing its value attached or as the next word gives the same invocation
   * or the same error.
   */
  lemma {:induction false} Interchange(inv: Invocation, pre: seq<string>, flag: char, value: string, post: seq<string>)
    requires TakesValue(flag) && value != ""
    requires OptionPosition(pre, |pre|)
    ensures Parse(inv, pre + [Flag(flag) + value] + post) == Parse(inv, pre + [Flag(flag), value] + post)
    decreases |pre|
  {
    var s, t := [Flag(flag) + value] + post, [Flag(flag), value] + post;
    assert pre + [Flag(flag) + value] + post == pre + s && pre + [Flag(flag), value] + post == pre + t;
    if pre == [] {
      assert pre + s == s && pre + t == t;
      InterchangeHere(inv, flag, value, post);
    } else {
      FrontIsLocal(inv, pre, s, t);
      var front := ApplyFront(inv, pre + s);
      var rest := pre[Width(pre[0])..];
      assert (pre + s)[0] == pre[0] == (pre + t)[0];
      if front.error == None {
        Interchange(front.state, rest, flag, value, post);
        assert rest + [Flag(flag) + value] + post == rest + s && rest + [Flag(flag), value] + post == rest + t;
      }
    }
  }

  // ---------- terminal choices ----------

  /** Values given to options touch neither the terminal choices nor the remote command. */
  ghost predicate Untouched(inv: Invocation, outcome: Outcome) {
    && outcome.state.forceTTY == inv.forceTTY && outcome.state.disableTTY == inv.disableTTY
    && outcome.state.remoteCommand == inv.remoteCommand
  }

  lemma HostKeyTouchesNeither(inv: Invocation, v: string)
    ensures Untouched(inv, ApplyHostKeyChecking(inv, v))
  {
  }

  lemma KeyTouchesNeither(inv: Invocation, key: Key, v: string)
    ensures Untouched(inv, ApplyKey(inv, key, v))
  {
    match key {
      case StrictHostKeyChecking =>
        HostKeyTouchesNeither(inv, v);
      case ForwardAgent =>
      case BatchMode =>
      case IdentitiesOnly =>
      case Ignored =>
      case User =>
      case Port =>
      case IdentityFile =>
      case UserKnownHostsFile =>
      case Unknown(_) =>
    }
  }

  lemma OptionTouchesNeither(inv: Invocation, value: string)
    ensures Untouched(inv, ApplyOption(inv, value))
  {
    if KeyValue(value).Some? {
      KeyTouchesNeither(inv, KeyOf(KeyValue(value).value.0), KeyValue(value).value.1);
    }
  }

  lemma PortTouchesNeither(inv: Invocation, value: string)
    ensures Untouched(inv, ApplyValue(inv, 'p', value))
  {
  }

  lemma ValueTouchesNeither(inv: Invocation, flag: char, value: string)
    requires TakesValue(flag)
    ensures Untouched(inv, ApplyValue(inv, flag, value))
  {
    if flag == 'o' {
      OptionTouchesNeither(inv, value);
    } else if flag == 'p' {
      PortTouchesNeither(inv, value);
    }
  }

  lemma FrontKeeps(inv: Invocation, args: seq<string>)
    requires args != [] && !IsCommandWord(args[0])
    ensures var state := ApplyFront(inv, args).state;
            && (!(inv.forceTTY && inv.disableTTY) ==> !(state.forceTTY && state.disableTTY))
            && state.remoteCommand == inv.remoteCommand
  {
    var arg := args[0];
    if |arg| >= 2 && TakesValue(arg[1]) {
      ValueTouchesNeither(inv, arg[1], arg[2..]);
      if |args| > 1 {
        ValueTouchesNeither(inv, arg[1], args[1]);
      }
    }
  }

  /** A terminal is never both forced and disabled. */
  lemma {:induction false} TTYExclusive(inv: Invocation, args: seq<string>)
    requires !(inv.forceTTY && inv.disableTTY)
    ensures var state := Parse(inv, args).state; !(state.forceTTY && state.disableTTY)
    decreases |args|
  {
    if args != [] && !IsCommandWord(args[0]) {
      FrontKeeps(inv, args);
      var front := ApplyFront(inv, args);
      if front.error == None {
        TTYExclusive(front.state, args[Width(args[0])..]);
      }
    }
  }

  // ---------- the argument list that the life-cycle tool prints ----------

  function ServerSSHPassThroughArgs(privateKey: string, login: string, command: string): seq<string> {
    ["--", "-i", privateKey, "-o", "StrictHostKeyChecking=no", "-o", "UserKnownHostsFile=/dev/null", "-o", "BatchMode=yes",
     "-o", "IdentitiesOnly=yes", "-o", "LogLevel=ERROR"]
    + (if login != "" then ["-l", login] else [])
    + (if command != "" then [command] else [])
  }

  /** The invocation that the printed options stand for. */
  function Intended(inv: Invocation, privateKey: string, login: string): Invocation {
    inv.(identityFiles := inv.identityFiles + [privateKey],
         strictHostKeyChecking := "no",
         knownHostsFiles := ["/dev/null"],
         batchMode := true,
         disableAgent := true,
         login := if login != "" then login else inv.login)
  }

  ghost predicate Letters(s: string) {
    s != "" && forall i :: 0 <= i < |s| ==> 'a' <= s[i] <= 'z' || 'A' <= s[i] <= 'Z'
  }

  /** A value without blanks or quotes at its ends. */
  ghost predicate Tight(s: string) {
    s != "" && !IsSpace(s[0]) && !IsSpace(s[|s| - 1]) && s[0] != '"' && s[|s| - 1] != '"'
  }

  lemma {:induction false} CutAt(key: string, value: string)
    requires forall i :: 0 <= i < |key| ==> key[i] != '='
    ensures Cut(key + "=" + value) == Some((key, value))
  {
    if key == "" {
      assert (key + "=" + value)[1..] == value;
    } else {
      CutAt(key[1..], value);
      assert (key + "=" + value)[1..] == key[1..] + "=" + value;
      assert key == [key[0]] + key[1..];
    }
  }

  lemma {:induction false} NoDashes(s: string)
    requires forall i :: 0 <= i < |s| ==> s[i] != '-'
    ensures WithoutDashes(s) == s
  {
    if s == "" {
    } else {
      NoDashes(s[1..]);
    }
  }

  lemma KeyValueOf(key: string, value: string)
    requires Letters(key) && Tight(value)
    ensures KeyValue(key + "=" + value) == Some((ToLower(key), value))
  {
    CutAt(key, value);
    TightKey(key);
    TightValue(value);
  }

  lemma LetterIsNoSpace(c: char)
    requires 'a' <= c <= 'z' || 'A' <= c <= 'Z'
    ensures !IsSpace(c)
  {
  }

  lemma TightKey(key: string)
    requires Letters(key)
    ensures ToLower(WithoutDashes(TrimSpace(key))) == ToLower(key)
  {
    LetterIsNoSpace(key[0]);
    LetterIsNoSpace(key[|key| - 1]);
    NothingToTrim(key);
    NoDashes(key);
  }

  lemma TightValue(value: string)
    requires Tight(value)
    ensures TrimQuotes(TrimSpace(value)) == value
  {
    TrimmedAlready(value);
  }

  /** `word` is `key=value`, with a key of letters that names `k` whatever its case. */
  ghost predicate Names(word: string, key: string, value: string, k: Key) {
    word == key + "=" + value && Letters(key) && Tight(value) && KeyOf(ToLower(key)) == k
  }

  lemma ApplyNamed(inv: Invocation, word: string, key: string, value: string, k: Key)
    requires Names(word, key, value, k)
    ensures ApplyOption(inv, word) == ApplyKey(inv, k, value)
  {
    KeyValueOf(key, value);
  }

  lemma ApplyStrict(inv: Invocation, word: string, key: string, value: string)
    requires Names(word, key, value, StrictHostKeyChecking) && value == "no" && ToLower(value) == value
    ensures ApplyOption(inv, word) == Outcome(inv.(strictHostKeyChecking := "no"), None)
  {
    ApplyNamed(inv, word, key, value, StrictHostKeyChecking);
  }

  lemma ApplyHosts(inv: Invocation, word: string, key: string, value: string)
    requires Names(word, key, value, UserKnownHostsFile) && Fields(value) == [value]
    ensures ApplyOption(inv, word) == Outcome(inv.(knownHostsFiles := [value]), None)
  {
    ApplyNamed(inv, word, key, value, UserKnownHostsFile);
  }

  lemma ApplyBatch(inv: Invocation, word: string, key: string, value: string)
    requires Names(word, key, value, BatchMode) && Truthy(value)
    ensures ApplyOption(inv, word) == Outcome(inv.(batchMode := true), None)
  {
    ApplyNamed(inv, word, key, value, BatchMode);
  }

  lemma ApplyIdentities(inv: Invocation, word: string, key: string, value: string)
    requires Names(word, key, value, IdentitiesOnly) && Truthy(value)
    ensures ApplyOption(inv, word) == Outcome(inv.(disableAgent := true), None)
  {
    ApplyNamed(inv, word, key, value, IdentitiesOnly);
  }

  lemma ApplyIgnored(inv: Invocation, word: string, key: string, value: string)
    requires Names(word, key, value, Ignored)
    ensures ApplyOption(inv, word) == Outcome(inv, None)
  {
    ApplyNamed(inv, word, key, value, Ignored);
  }

  // ---------- the fixed options of the life-cycle tool ----------

  lemma YesIsTruthy(value: string)
    requires value == "yes"
    ensures Truthy(value)
  {
    TrimmedAlready(value);
    assert ToLower(value) == "yes";
  }

  lemma FileIsOneField(value: string)
    requires value == "/dev/null"
    ensures Fields(value) == [value]
  {
    assert value + "" == value && forall i :: 0 <= i < |value| ==> !IsSpace(value[i]);
    FieldsOfWord(value, "");
  }

  lemma StrictNames() returns (word: string, key: string, value: string)
    ensures word == "StrictHostKeyChecking=no" && Names(word, key, value, StrictHostKeyChecking)
    ensures value == "no" && ToLower(value) == value
  {
    word, key, value := "StrictHostKeyChecking=no", "StrictHostKeyChecking", "no";
    assert ToLower(key) == "stricthostkeychecking";
  }

  lemma HostsNames() returns (word: string, key: string, value: string)
    ensures word == "UserKnownHostsFile=/dev/null" && Names(word, key, value, UserKnownHostsFile)
    ensures value == "/dev/null"
  {
    word, key, value := "UserKnownHostsFile=/dev/null", "UserKnownHostsFile", "/dev/null";
    assert ToLower(key) == "userknownhostsfile";
  }

  lemma BatchNames() returns (word: string, key: string, value: string)
    ensures word == "BatchMode=yes" && Names(word, key, value, BatchMode) && value == "yes"
  {
    word, key, value := "BatchMode=yes", "BatchMode", "yes";
    assert ToLower(key) == "batchmode";
  }

  lemma IdentitiesNames() returns (word: string, key: string, value: string)
    ensures word == "IdentitiesOnly=yes" && Names(word, key, value, IdentitiesOnly) && value == "yes"
  {
    word, key, value := "IdentitiesOnly=yes", "IdentitiesOnly", "yes";
    assert ToLower(key) == "identitiesonly";
  }

  lemma LogNames() returns (word: string, key: string, value: string)
    ensures word == "LogLevel=ERROR" && Names(word, key, value, Ignored)
  {
    word, key, value := "LogLevel=ERROR", "LogLevel", "ERROR";
    assert ToLower(key) == "loglevel";
  }

  lemma StrictOption(inv: Invocation)
    ensures ApplyOption(inv, "StrictHostKeyChecking=no") == Outcome(inv.(strictHostKeyChecking := "no"), None)
  {
    var word, key, value := StrictNames();
    ApplyStrict(inv, word, key, value);
  }

  lemma HostsOption(inv: Invocation)
    ensures ApplyOption(inv, "UserKnownHostsFile=/dev/null") == Outcome(inv.(knownHostsFiles := ["/dev/null"]), None)
  {
    var word, key, value := HostsNames();
    FileIsOneField(value);
    ApplyHosts(inv, word, key, value);
  }

  lemma BatchOption(inv: Invocation)
    ensures ApplyOption(inv, "BatchMode=yes") == Outcome(inv.(batchMode := true), None)
  {
    var word, key, value := BatchNames();
    YesIsTruthy(value);
    ApplyBatch(inv, word, key, value);
  }

  lemma IdentitiesOption(inv: Invocation)
    ensures ApplyOption(inv, "IdentitiesOnly=yes") == Outcome(inv.(disableAgent := true), None)
  {
    var word, key, value := IdentitiesNames();
    YesIsTruthy(value);
    ApplyIdentities(inv, word, key, value);
  }

  lemma LogOption(inv: Invocation)
    ensures ApplyOption(inv, "LogLevel=ERROR") == Outcome(inv, None)
  {
    var word, key, value := LogNames();
    ApplyIgnored(inv, word, key, value);
  }

  /** One detached option at the front. */
  lemma ParseDetached(inv: Invocation, flag: char, value: string, rest: seq<string>)
    requires TakesValue(flag)
    ensures var front := ApplyValue(inv, flag, value);
            Parse(inv, [Flag(flag), value] + rest) == if front.error.Some? then front else Parse(front.state, rest)
  {
    var args := [Flag(flag), value] + rest;
    assert args[0] == Flag(flag) && args[1] == value && args[2..] == rest;
  }

  lemma ParseOption(inv: Invocation, value: string, after: Invocation, rest: seq<string>)
    requires ApplyOption(inv, value) == Outcome(after, None)
    ensures Parse(inv, ["-o", value] + rest) == Parse(after, rest)
  {
    assert Flag('o') == "-o";
    ParseValueOf(inv, 'o', value, Outcome(after, None), rest);
  }

  lemma ParseValueOf(inv: Invocation, flag: char, value: string, outcome: Outcome, rest: seq<string>)
    requires TakesValue(flag) && ApplyValue(inv, flag, value) == outcome && outcome.error == None
    ensures Parse(inv, [Flag(flag), value] + rest) == Parse(outcome.state, rest)
  {
    ParseDetached(inv, flag, value, rest);
  }

  function FirstOptions(rest: seq<string>): seq<string> {
    ["-o", "StrictHostKeyChecking=no"] + (["-o", "UserKnownHostsFile=/dev/null"] + rest)
  }

  function LastOptions(rest: seq<string>): seq<string> {
    ["-o", "BatchMode=yes"] + (["-o", "IdentitiesOnly=yes"] + (["-o", "LogLevel=ERROR"] + rest))
  }

  lemma ParseFirstOptions(inv: Invocation, rest: seq<string>)
    ensures Parse(inv, FirstOptions(rest)) == Parse(inv.(strictHostKeyChecking := "no", knownHostsFiles := ["/dev/null"]), rest)
  {
    var strict := inv.(strictHostKeyChecking := "no");
    StrictOption(inv);
    HostsOption(strict);
    var hosts := ["-o", "UserKnownHostsFile=/dev/null"] + rest;
    ParseOption(inv, "StrictHostKeyChecking=no", strict, hosts);
    ParseOption(strict, "UserKnownHostsFile=/dev/null", strict.(knownHostsFiles := ["/dev/null"]), rest);
  }

  lemma ParseLastOptions(inv: Invocation, rest: seq<string>)
    ensures Parse(inv, LastOptions(rest)) == Parse(inv.(batchMode := true, disableAgent := true), rest)
  {
    var batch := inv.(batchMode := true);
    var both := batch.(disableAgent := true);
    BatchOption(inv);
    IdentitiesOption(batch);
    LogOption(both);
    var log := ["-o", "LogLevel=ERROR"] + rest;
    var identities := ["-o", "IdentitiesOnly=yes"] + log;
    ParseOption(inv, "BatchMode=yes", batch, identities);
    ParseOption(batch, "IdentitiesOnly=yes", both, log);
    ParseOption(both, "LogLevel=ERROR", both, rest);
  }

  lemma ArgsInOrder(privateKey: string, login: string, command: string)
    ensures ServerSSHPassThroughArgs(privateKey, login, command)
            == ["--"] + (["-i", privateKey] + FirstOptions(LastOptions(
                 (if login != "" then ["-l", login] else []) + (if command != "" then [command] else []))))
  {
  }

  lemma ParseKey(inv: Invocation, privateKey: string, rest: seq<string>)
    ensures Parse(inv, ["--"] + (["-i", privateKey] + rest))
            == Parse(inv.(identityFiles := inv.identityFiles + [privateKey]), rest)
  {
    var key := ["-i", privateKey] + rest;
    assert (["--"] + key)[1..] == key;
    ParseDetached(inv, 'i', privateKey, rest);
  }

  lemma ParseLogin(inv: Invocation, login: string, rest: seq<string>)
    ensures Parse(inv, (if login != "" then ["-l", login] else []) + rest)
            == Parse(inv.(login := if login != "" then login else inv.login), rest)
  {
    if login != "" {
      ParseDetached(inv, 'l', login, rest);
    } else {
      assert [] + rest == rest;
    }
  }

  lemma ParseOptions(inv: Invocation, privateKey: string, login: string, rest: seq<string>)
    ensures Parse(inv, ["--"] + (["-i", privateKey] + FirstOptions(LastOptions((if login != "" then ["-l", login] else []) + rest))))
            == Parse(Intended(inv, privateKey, login), rest)
  {
    var tail := (if login != "" then ["-l", login] else []) + rest;
    ParseKey(inv, privateKey, FirstOptions(LastOptions(tail)));
    var inv1 := inv.(identityFiles := inv.identityFiles + [privateKey]);
    ParseFirstOptions(inv1, LastOptions(tail));
    var inv2 := inv1.(strictHostKeyChecking := "no", knownHostsFiles := ["/dev/null"]);
    ParseLastOptions(inv2, tail);
    ParseLogin(inv2.(batchMode := true, disableAgent := true), login, rest);
  }

  /** A lone word that looks like an option never becomes the remote command. */
  lemma DashIsNoCommand(inv: Invocation, arg: string)
    requires arg != "" && !IsCommandWord(arg)
    ensures Parse(inv, [arg]).state.remoteCommand == inv.remoteCommand
  {
    FrontKeeps(inv, [arg]);
    if ApplyFront(inv, [arg]).error == None {
      assert Width(arg) == 1;
      assert [arg][1..] == [];
    }
  }

  /**
   * Parsing what the life-cycle tool prints gives back the key, the login and the fixed options, and it gives back the
   * command exactly when that is empty, a single dash, or does not start with a dash.
   */
  lemma PassThroughRoundTrip(inv: Invocation, privateKey: string, login: string, command: string)
    ensures var intended := Intended(inv, privateKey, login);
            var wanted := intended.(remoteCommand := inv.remoteCommand + if command == "" then [] else [command]);
            Parse(inv, ServerSSHPassThroughArgs(privateKey, login, command)) == Outcome(wanted, None)
            <==> command == "" || command == "-" || !HasPrefix(command, "-")
  {
    var intended := Intended(inv, privateKey, login);
    var rest := if command == "" then [] else [command];
    ArgsInOrder(privateKey, login, command);
    ParseOptions(inv, privateKey, login, rest);
    if command == "" {
      assert inv.remoteCommand + [] == inv.remoteCommand;
    } else if !IsCommandWord(command) {
      DashIsNoCommand(intended, command);
      assert |inv.remoteCommand + [command]| == |inv.remoteCommand| + 1;
    }
  }

  /** A command that looks like an option is lost on the way. */
  lemma DashedCommandLost(inv: Invocation, privateKey: string, login: string, command: string)
    requires command == "-x"
    ensures var intended := Intended(inv, privateKey, login);
            Parse(inv, ServerSSHPassThroughArgs(privateKey, login, command))
            != Outcome(intended.(remoteCommand := inv.remoteCommand + [command]), None)
  {
    PassThroughRoundTrip(inv, privateKey, login, command);
  }
}
