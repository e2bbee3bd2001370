/** The pass-through SSH options of `server ssh`, parsed in place over an argument list. */
module SshOptions {
  import opened Text
  import opened Options
  import opened Decimal

  /** What the parser fills in; the address fields of the invocation are never touched by it. */
  datatype Invocation = Invocation(
    login: string,
    port: int,
    identityFiles: seq<string>,
    knownHostsFiles: seq<string>,
    strictHostKeyChecking: string,
    forwardAgent: bool,
    disableAgent: bool,
    forceTTY: bool,
    disableTTY: bool,
    batchMode: bool,
    verbose: bool,
    remoteCommand: seq<string>)

  datatype Error =
    | NeedsArgument(flag: string)
    | BadInteger(option: string, text: string)
    | NotKeyValue(text: string)
    | BadHostKeyChecking(text: string)
    | UnknownOption(key: string)
    | UnsupportedFlag(arg: string)

  /** The invocation as it is left, and the error if parsing stopped at one. */
  datatype Outcome = Outcome(state: Invocation, error: Option<Error>)

  // ---------- the words of one -o option ----------

  /** Lower case as far as comparison with ASCII words can tell: two other letters have ASCII lower forms. */
  function LowerChar(c: char): char {
    if 'A' <= c <= 'Z' then c - 'A' + 'a'
    else if c == '\U{212A}' then 'k' else if c == '\U{130}' then 'i' else c
  }

  function ToLower(s: string): string {
    seq(|s|, i requires 0 <= i < |s| => LowerChar(s[i]))
  }

  function WithoutDashes(s: string): string {
    if s == "" then "" else (if s[0] == '-' then "" else [s[0]]) + WithoutDashes(s[1..])
  }

  function TrimQuotes(s: string): string
    decreases |s|
  {
    if s != "" && s[0] == '"' then TrimQuotes(s[1..])
    else if s != "" && s[|s| - 1] == '"' then TrimQuotes(s[..|s| - 1])
    else s
  }

  /** `strings.Cut` at the first '=': what is before it and after it, if there is one. */
  function Cut(s: string): Option<(string, string)> {
    if s == "" then None
    else if s[0] == '=' then Some(("", s[1..]))
    else match Cut(s[1..])
         case None => None
         case Some((before, after)) => Some(([s[0]] + before, after))
  }

  predicate Truthy(value: string) {
    var v := ToLower(TrimSpace(value));
    v == "yes" || v == "true" || v == "on" || v == "1"
  }

  /** The key and the value of one option, or None when it is neither `key=value` nor two words. */
  function KeyValue(value: string): Option<(string, string)> {
    match Cut(value)
    case Some((key, optionValue)) => Some(Normalised(key, optionValue))
    case None =>
      var fields := Fields(value);
      if |fields| != 2 then None else Some(Normalised(fields[0], fields[1]))
  }

  function Normalised(key: string, optionValue: string): (string, string) {
    (ToLower(WithoutDashes(TrimSpace(key))), TrimQuotes(TrimSpace(optionValue)))
  }

  function ApplyOption(inv: Invocation, value: string): Outcome {
    match KeyValue(value)
    case None => Outcome(inv, Some(NotKeyValue(value)))
    case Some((key, v)) => ApplyKey(inv, KeyOf(key), v)
  }

  function ApplyHostKeyChecking(inv: Invocation, v: string): Outcome {
    var normalized := ToLower(v);
    if normalized == "yes" || normalized == "no" || normalized == "ask" || normalized == "accept-new" then
      Outcome(inv.(strictHostKeyChecking := normalized), None)
    else if normalized == "off" then Outcome(inv.(strictHostKeyChecking := "no"), None)
    else Outcome(inv, Some(BadHostKeyChecking(v)))
  }

  /** The option keys, after normalisation of case and dashes. */
  datatype Key =
    | User | Port | IdentityFile | StrictHostKeyChecking | UserKnownHostsFile
    | ForwardAgent | BatchMode | IdentitiesOnly | Ignored | Unknown(name: string)

  function KeyOf(key: string): Key {
    if key == "user" then User
    else if key == "port" then Port
    else if key == "identityfile" then IdentityFile
    else if key == "stricthostkeychecking" then StrictHostKeyChecking
    else if key == "userknownhostsfile" then UserKnownHostsFile
    else if key == "forwardagent" then ForwardAgent
    else if key == "batchmode" then BatchMode
    else if key == "identitiesonly" then IdentitiesOnly
    else if key == "passwordauthentication" || key == "kbdinteractiveauthentication" || key == "loglevel" then Ignored
    else Unknown(key)
  }

  function ApplyKey(inv: Invocation, key: Key, v: string): Outcome {
    match key
    case User => Outcome(inv.(login := v), None)
    case Port =>
      (match Atoi(v)
       case None => Outcome(inv, Some(BadInteger("-o Port", v)))
       case Some(port) => Outcome(inv.(port := port), None))
    case IdentityFile => Outcome(inv.(identityFiles := inv.identityFiles + [v]), None)
    case StrictHostKeyChecking => ApplyHostKeyChecking(inv, v)
    case UserKnownHostsFile => Outcome(inv.(knownHostsFiles := Fields(v)), None)
    case Unknown(name) => Outcome(inv, Some(UnknownOption(name)))
    case _ => Outcome(ApplyTruth(inv, key, Truthy(v)), None)
  }

  /** The keys whose value is only asked whether it is truthy; others change nothing. */
  function ApplyTruth(inv: Invocation, key: Key, on: bool): Invocation {
    match key
    case ForwardAgent => inv.(forwardAgent := on, disableAgent := !on)
    case BatchMode => inv.(batchMode := on)
    case IdentitiesOnly => if on then inv.(disableAgent := true) else inv
    case _ => inv
  }

  // ---------- flags ----------

  predicate TakesValue(flag: char) {
    flag == 'l' || flag == 'p' || flag == 'i' || flag == 'o'
  }

  function ApplyValue(inv: Invocation, flag: char, value: string): Outcome
    requires TakesValue(flag)
  {
    if flag == 'l' then Outcome(inv.(login := value), None)
    else if flag == 'p' then
      match Atoi(value)
      case None => Outcome(inv, Some(BadInteger("-p", value)))
      case Some(port) => Outcome(inv.(port := port), None)
    else if flag == 'i' then Outcome(inv.(identityFiles := inv.identityFiles + [value]), None)
    else ApplyOption(inv, value)
  }

  function ApplySwitch(inv: Invocation, arg: string): Outcome {
    if arg == "-A" then Outcome(inv.(forwardAgent := true, disableAgent := false), None)
    else if arg == "-a" then Outcome(inv.(disableAgent := true, forwardAgent := false), None)
    else if arg == "-t" then Outcome(inv.(forceTTY := true, disableTTY := false), None)
    else if arg == "-T" then Outcome(inv.(disableTTY := true, forceTTY := false), None)
    else if HasPrefix(arg, "-v") then Outcome(inv.(verbose := true), None)
    else Outcome(inv, Some(UnsupportedFlag(arg)))
  }

  predicate IsCommandWord(arg: string) {
    arg != "--" && arg != "" && (!HasPrefix(arg, "-") || arg == "-")
  }

  predicate IsDetached(arg: string) {
    |arg| == 2 && arg[0] == '-' && TakesValue(arg[1])
  }

  /** How many words the option at the front takes up; only meaningful when there are that many. */
  function Width(arg: string): nat {
    if IsDetached(arg) then 2 else 1
  }

  function ApplyFront(inv: Invocation, args: seq<string>): Outcome
    requires args != [] && !IsCommandWord(args[0])
  {
    var arg := args[0];
    if arg == "--" || arg == "" then Outcome(inv, None)
    else if IsDetached(arg) then
      if |args| == 1 then Outcome(inv, Some(NeedsArgument(arg))) else ApplyValue(inv, arg[1], args[1])
    else if TakesValue(arg[1]) then ApplyValue(inv, arg[1], arg[2..])
    else ApplySwitch(inv, arg)
  }

  function Parse(inv: Invocation, args: seq<string>): Outcome
    decreases |args|
  {
    if args == [] then Outcome(inv, None)
    else if IsCommandWord(args[0]) then Outcome(inv.(remoteCommand := inv.remoteCommand + args), None)
    else
      var front := ApplyFront(inv, args);
      if front.error.Some? then front else Parse(front.state, args[Width(args[0])..])
  }

  // ---------- the program ----------

  class ServerSSHInvocation {
    var login: string
    var port: int
    var identityFiles: seq<string>
    var knownHostsFiles: seq<string>
    var strictHostKeyChecking: string
    var forwardAgent: bool
    var disableAgent: bool
    var forceTTY: bool
    var disableTTY: bool
    var batchMode: bool
    var verbose: bool
    var remoteCommand: seq<string>

    function Snapshot(): Invocation
      reads this
    {
      Invocation(login, port, identityFiles, knownHostsFiles, strictHostKeyChecking, forwardAgent, disableAgent,
                 forceTTY, disableTTY, batchMode, verbose, remoteCommand)
    }

    constructor (inv: Invocation)
      ensures Snapshot() == inv
    {
      login, port, identityFiles, knownHostsFiles := inv.login, inv.port, inv.identityFiles, inv.knownHostsFiles;
      strictHostKeyChecking, forwardAgent, disableAgent := inv.strictHostKeyChecking, inv.forwardAgent, inv.disableAgent;
      forceTTY, disableTTY, batchMode := inv.forceTTY, inv.disableTTY, inv.batchMode;
      verbose, remoteCommand := inv.verbose, inv.remoteCommand;
    }

    method SetHostKeyChecking(value: string) returns (error: Option<Error>)
      modifies this
      ensures Outcome(Snapshot(), error) == ApplyHostKeyChecking(old(Snapshot()), value)
    {
      var normalized := ToLower(value);
      if normalized == "yes" || normalized == "no" || normalized == "ask" || normalized == "accept-new" || normalized == "off" {
        if normalized == "off" {
          normalized := "no";
        }
        strictHostKeyChecking := normalized;
        return None;
      }
      error := Some(BadHostKeyChecking(value));
    }

    method SetOption(key: Key, optionValue: string) returns (error: Option<Error>)
      modifies this
      ensures Outcome(Snapshot(), error) == ApplyKey(old(Snapshot()), key, optionValue)
    {
      error := None;
      match key {
        case User => login := optionValue;
        case Port =>
          var parsed := Atoi(optionValue);
          if parsed == None {
            return Some(BadInteger("-o Port", optionValue));
          }
          port := parsed.value;
        case IdentityFile => identityFiles := identityFiles + [optionValue];
        case StrictHostKeyChecking => error := SetHostKeyChecking(optionValue);
        case UserKnownHostsFile => knownHostsFiles := Fields(optionValue);
        case Unknown(name) => error := Some(UnknownOption(name));
        case _ => SetTruth(key, Truthy(optionValue));
      }
    }

    method SetTruth(key: Key, on: bool)
      modifies this
      ensures Snapshot() == ApplyTruth(old(Snapshot()), key, on)
    {
      match key {
        case ForwardAgent =>
          forwardAgent := on;
          disableAgent := !forwardAgent;
        case BatchMode => batchMode := on;
        case IdentitiesOnly =>
          if on {
            disableAgent := true;
          }
        case _ =>
      }
    }

    method ApplyServerSSHOption(value: string) returns (error: Option<Error>)
      modifies this
      ensures Outcome(Snapshot(), error) == ApplyOption(old(Snapshot()), value)
    {
      var pair := KeyValue(value);
      if pair == None {
        return Some(NotKeyValue(value));
      }
      error := SetOption(KeyOf(pair.value.0), pair.value.1);
    }

    method ApplyFlagValue(flag: char, value: string) returns (error: Option<Error>)
      requires TakesValue(flag)
      modifies this
      ensures Outcome(Snapshot(), error) == ApplyValue(old(Snapshot()), flag, value)
    {
      error := None;
      match flag {
        case 'l' => login := value;
        case 'p' =>
          var parsed := Atoi(value);
          if parsed == None {
            return Some(BadInteger("-p", value));
          }
          port := parsed.value;
        case 'i' => identityFiles := identityFiles + [value];
        case _ => error := ApplyServerSSHOption(value);
      }
    }

    method ApplyFlag(arg: string) returns (error: Option<Error>)
      modifies this
      ensures Outcome(Snapshot(), error) == ApplySwitch(old(Snapshot()), arg)
    {
      error := None;
      if arg == "-A" {
        forwardAgent, disableAgent := true, false;
      } else if arg == "-a" {
        disableAgent, forwardAgent := true, false;
      } else if arg == "-t" {
        forceTTY, disableTTY := true, false;
      } else if arg == "-T" {
        disableTTY, forceTTY := true, false;
      } else if HasPrefix(arg, "-v") {
        verbose := true;
      } else {
        error := Some(UnsupportedFlag(arg));
      }
    }

    /** One option other than a command word, at place `i`; `next` is where the following one starts. */
    method ParseOption(args: seq<string>, i: nat) returns (error: Option<Error>, next: nat)
      requires i < |args| && !IsCommandWord(args[i])
      modifies this
      ensures Outcome(Snapshot(), error) == ApplyFront(old(Snapshot()), args[i..])
      ensures error == None ==> next == i + Width(args[i]) <= |args|
    {
      var arg := args[i];
      next := i + 1;
      if arg == "--" || arg == "" {
        return None, next;
      }
      if IsDetached(arg) {
        if i + 1 >= |args| {
          return Some(NeedsArgument(arg)), next;
        }
        error := ApplyFlagValue(arg[1], args[i + 1]);
        next := i + 2;
      } else if TakesValue(arg[1]) {
        error := ApplyFlagValue(arg[1], arg[2..]);
      } else {
        error := ApplyFlag(arg);
      }
    }

    method ParseServerSSHPassThrough(args: seq<string>) returns (error: Option<Error>)
      modifies this
      ensures Outcome(Snapshot(), error) == Parse(old(Snapshot()), args)
    {
      var i := 0;
      assert args[0..] == args;
      while i < |args|
        invariant 0 <= i <= |args|
        invariant Parse(Snapshot(), args[i..]) == Parse(old(Snapshot()), args)
      {
        if IsCommandWord(args[i]) {
          remoteCommand := remoteCommand + args[i..];
          return None;
        }
        var next;
        error, next := ParseOption(args, i);
        if error.Some? {
          return;
        }
        assert args[i..][Width(args[i])..] == args[next..];
        i := next;
      }
      error := None;
    }
  }
}
