/** What whole argument lists of `server ssh` ask for: option by option, the last one that sets a field decides it. */
module SshEffects {
  import opened Text
  import opened Options
  import opened Decimal
  import opened SshOptions
  import opened SshLaws

  // ---------- the options of an argument list ----------

  /** An option word with its value, wherever that is written (switches have none), or one whose value is missing. */
  datatype Item = Item(word: string, value: string) | Missing(word: string)

  predicate Valued(word: string) {
    word == "-l" || word == "-p" || word == "-i" || word == "-o"
  }

  /** The options before the remote command; "--" and empty words are none. */
  function Items(args: seq<string>): seq<Item>
    decreases |args|
  {
    if args == [] then []
    else
      var arg := args[0];
      if arg == "" || arg == "--" then Items(args[1..])
      else if arg[0] != '-' || arg == "-" then []
      else if Valued(arg) then if |args| == 1 then [Missing(arg)] else [Item(arg, args[1])] + Items(args[2..])
      else if Valued(arg[..2]) then [Item(arg[..2], arg[2..])] + Items(args[1..])
      else [Item(arg, "")] + Items(args[1..])
  }

  /** The remote command: everything from the first word on that is no option, whatever follows. */
  function CommandWords(args: seq<string>): seq<string>
    decreases |args|
  {
    if args == [] then []
    else
      var arg := args[0];
      if arg == "" || arg == "--" then CommandWords(args[1..])
      else if arg[0] != '-' || arg == "-" then args
      else if Valued(arg) then if |args| == 1 then [] else CommandWords(args[2..])
      else CommandWords(args[1..])
  }

  // ---------- what one option asks for ----------

  datatype Setting =
    | Login(name: string)
    | PortNumber(port: int)
    | Identity(file: string)
    | HostKeys(mode: string)
    | KnownHosts(files: seq<string>)
    | Agent(on: bool)
    | KeysOnly
    | Batch(on: bool)
    | Terminal(forced: bool)
    | Verbose
    | Nothing

  datatype Meaning = Fails(error: Error) | Sets(setting: Setting)

  function HostKeysMeaning(value: string): Meaning {
    var mode := ToLower(value);
    if mode == "off" then Sets(HostKeys("no"))
    else if mode == "yes" || mode == "no" || mode == "ask" || mode == "accept-new" then Sets(HostKeys(mode))
    else Fails(BadHostKeyChecking(value))
  }

  /** The options whose value is only asked whether it is truthy. */
  function SwitchedMeaning(key: string, on: bool): Meaning {
    if key == "forwardagent" then Sets(Agent(on))
    else if key == "batchmode" then Sets(Batch(on))
    else if key == "identitiesonly" then Sets(if on then KeysOnly else Nothing)
    else if key == "passwordauthentication" || key == "kbdinteractiveauthentication" || key == "loglevel" then Sets(Nothing)
    else Fails(UnknownOption(key))
  }

  /** `host` is what the value means to "StrictHostKeyChecking", `rest` what it means to the keys that ask for truth. */
  function NamedAs(key: string, value: string, host: Meaning, rest: Meaning): Meaning {
    if key == "user" then Sets(Login(value))
    else if key == "port" then if Atoi(value) == None then Fails(BadInteger("-o Port", value)) else Sets(PortNumber(Atoi(value).value))
    else if key == "identityfile" then Sets(Identity(value))
    else if key == "stricthostkeychecking" then host
    else if key == "userknownhostsfile" then Sets(KnownHosts(Fields(value)))
    else rest
  }

  function NamedMeaning(key: string, value: string): Meaning {
    NamedAs(key, value, HostKeysMeaning(value), SwitchedMeaning(key, Truthy(value)))
  }

  function PairMeaning(pair: Option<(string, string)>, value: string): Meaning {
    match pair
    case None => Fails(NotKeyValue(value))
    case Some((key, v)) => NamedMeaning(key, v)
  }

  function OptionMeaning(value: string): Meaning {
    PairMeaning(KeyValue(value), value)
  }

  /** `option` is what the value means to "-o". */
  function WordMeaning(word: string, value: string, option: Meaning): Meaning {
    if word == "-l" then Sets(Login(value))
    else if word == "-p" then if Atoi(value) == None then Fails(BadInteger("-p", value)) else Sets(PortNumber(Atoi(value).value))
    else if word == "-i" then Sets(Identity(value))
    else if word == "-o" then option
    else if word == "-A" then Sets(Agent(true))
    else if word == "-a" then Sets(Agent(false))
    else if word == "-t" then Sets(Terminal(true))
    else if word == "-T" then Sets(Terminal(false))
    else if "-v" <= word then Sets(Verbose)
    else Fails(UnsupportedFlag(word))
  }

  function MeaningOf(item: Item): Meaning {
    match item
    case Missing(word) => Fails(NeedsArgument(word))
    case Item(word, value) => WordMeaning(word, value, OptionMeaning(value))
  }

  function Set(inv: Invocation, setting: Setting): Invocation {
    match setting
    case Login(name) => inv.(login := name)
    case PortNumber(port) => inv.(port := port)
    case Identity(file) => inv.(identityFiles := inv.identityFiles + [file])
    case HostKeys(mode) => inv.(strictHostKeyChecking := mode)
    case KnownHosts(files) => inv.(knownHostsFiles := files)
    case Agent(on) => inv.(forwardAgent := on, disableAgent := !on)
    case KeysOnly => inv.(disableAgent := true)
    case Batch(on) => inv.(batchMode := on)
    case Terminal(forced) => inv.(forceTTY := forced, disableTTY := !forced)
    case Verbose => inv.(verbose := true)
    case Nothing => inv
  }

  function Take(inv: Invocation, meaning: Meaning): Outcome {
    match meaning
    case Fails(error) => Outcome(inv, Some(error))
    case Sets(setting) => Outcome(Set(inv, setting), None)
  }

  lemma HostKeysTakes(inv: Invocation, v: string)
    ensures ApplyHostKeyChecking(inv, v) == Take(inv, HostKeysMeaning(v))
  {
  }

  function KeyAs(key: Key, value: string, host: Meaning, rest: Meaning): Meaning {
    match key
    case User => Sets(Login(value))
    case Port => if Atoi(value) == None then Fails(BadInteger("-o Port", value)) else Sets(PortNumber(Atoi(value).value))
    case IdentityFile => Sets(Identity(value))
    case StrictHostKeyChecking => host
    case UserKnownHostsFile => Sets(KnownHosts(Fields(value)))
    case _ => rest
  }

  function TruthMeaning(key: Key, on: bool): Meaning {
    if key.Unknown? then Fails(UnknownOption(key.name)) else Sets(TruthSetting(key, on))
  }

  function KeyMeaning(key: Key, value: string): Meaning {
    KeyAs(key, value, HostKeysMeaning(value), TruthMeaning(key, Truthy(value)))
  }

  function TruthSetting(key: Key, on: bool): Setting {
    match key
    case ForwardAgent => Agent(on)
    case BatchMode => Batch(on)
    case IdentitiesOnly => if on then KeysOnly else Nothing
    case _ => Nothing
  }

  lemma TruthIs(inv: Invocation, key: Key, on: bool)
    ensures ApplyTruth(inv, key, on) == Set(inv, TruthSetting(key, on))
  {
  }

  lemma TruthTakes(inv: Invocation, key: Key, v: string)
    requires key == ForwardAgent || key == BatchMode || key == IdentitiesOnly || key == Ignored
    ensures ApplyKey(inv, key, v) == Take(inv, KeyMeaning(key, v))
  {
    TruthIs(inv, key, Truthy(v));
  }

  lemma PlainKeyTakes(inv: Invocation, key: Key, v: string, host: Meaning, rest: Meaning)
    requires key in {User, Port, IdentityFile, UserKnownHostsFile}
    ensures ApplyKey(inv, key, v) == Take(inv, KeyAs(key, v, host, rest))
  {
  }

  lemma KeyTakes(inv: Invocation, key: Key, v: string)
    ensures ApplyKey(inv, key, v) == Take(inv, KeyMeaning(key, v))
  {
    if key == StrictHostKeyChecking {
      HostKeysTakes(inv, v);
    } else if key in {User, Port, IdentityFile, UserKnownHostsFile} {
      PlainKeyTakes(inv, key, v, HostKeysMeaning(v), TruthMeaning(key, Truthy(v)));
    } else if !key.Unknown? {
      TruthTakes(inv, key, v);
    }
  }

  lemma NamedTakes(inv: Invocation, key: string, v: string)
    ensures ApplyKey(inv, KeyOf(key), v) == Take(inv, NamedMeaning(key, v))
  {
    KeyTakes(inv, KeyOf(key), v);
    NamedIsKey(key, v);
  }

  lemma SwitchedIsKey(key: string, on: bool)
    requires KeyOf(key) !in {User, Port, IdentityFile, StrictHostKeyChecking, UserKnownHostsFile}
    ensures SwitchedMeaning(key, on) == TruthMeaning(KeyOf(key), on)
  {
  }

  lemma NamedAsKey(key: string, v: string, host: Meaning, rest: Meaning)
    ensures NamedAs(key, v, host, rest) == KeyAs(KeyOf(key), v, host, rest)
  {
  }

  lemma KeyAsRest(key: Key, v: string, host: Meaning, r: Meaning, s: Meaning)
    requires r == s || key in {User, Port, IdentityFile, StrictHostKeyChecking, UserKnownHostsFile}
    ensures KeyAs(key, v, host, r) == KeyAs(key, v, host, s)
  {
  }

  lemma NamedIsKey(key: string, v: string)
    ensures NamedMeaning(key, v) == KeyMeaning(KeyOf(key), v)
  {
    var on := Truthy(v);
    if KeyOf(key) !in {User, Port, IdentityFile, StrictHostKeyChecking, UserKnownHostsFile} {
      SwitchedIsKey(key, on);
    }
    NamedAsKey(key, v, HostKeysMeaning(v), SwitchedMeaning(key, on));
    KeyAsRest(KeyOf(key), v, HostKeysMeaning(v), SwitchedMeaning(key, on), TruthMeaning(KeyOf(key), on));
  }

  lemma OptionTakes(inv: Invocation, value: string)
    ensures ApplyOption(inv, value) == Take(inv, OptionMeaning(value))
  {
    if KeyValue(value).Some? {
      NamedTakes(inv, KeyValue(value).value.0, KeyValue(value).value.1);
    }
  }

  lemma PortTakes(inv: Invocation, value: string, option: Meaning)
    ensures ApplyValue(inv, 'p', value) == Take(inv, WordMeaning("-p", value, option))
  {
  }

  lemma PlainTakes(inv: Invocation, flag: char, value: string, option: Meaning)
    requires flag == 'l' || flag == 'i'
    ensures ApplyValue(inv, flag, value) == Take(inv, WordMeaning(['-', flag], value, option))
  {
  }

  lemma OptionWord(value: string, option: Meaning)
    ensures WordMeaning("-o", value, option) == option
  {
  }

  lemma ValueTakes(inv: Invocation, flag: char, value: string)
    requires TakesValue(flag)
    ensures ApplyValue(inv, flag, value) == Take(inv, MeaningOf(Item(['-', flag], value)))
  {
    var option := OptionMeaning(value);
    if flag == 'p' {
      PortTakes(inv, value, option);
      assert ['-', flag] == "-p";
    } else if flag == 'o' {
      OptionTakes(inv, value);
      OptionWord(value, option);
      assert ['-', flag] == "-o";
    } else {
      PlainTakes(inv, flag, value, option);
    }
  }

  lemma SwitchTakes(inv: Invocation, arg: string, value: string, option: Meaning)
    requires !Valued(arg)
    ensures ApplySwitch(inv, arg) == Take(inv, WordMeaning(arg, value, option))
  {
  }

  // ---------- whole argument lists ----------

  /** Options taken one after the other, as long as they mean something. */
  function Run(inv: Invocation, items: seq<Item>): Invocation
    decreases |items|
  {
    if items == [] then inv else Run(Take(inv, MeaningOf(items[0])).state, items[1..])
  }

  ghost predicate AllMean(items: seq<Item>) {
    forall k :: 0 <= k < |items| ==> MeaningOf(items[k]).Sets?
  }

  /** What `items` make of an invocation: all of them in order, or those before the first that fails, and its error. */
  ghost predicate Effect(inv: Invocation, items: seq<Item>, command: seq<string>, outcome: Outcome) {
    if AllMean(items) then outcome == Outcome(Run(inv, items).(remoteCommand := inv.remoteCommand + command), None)
    else exists k :: FailsAt(inv, items, k, outcome)
  }

  ghost predicate FailsAt(inv: Invocation, items: seq<Item>, k: nat, outcome: Outcome) {
    && k < |items| && AllMean(items[..k])
    && MeaningOf(items[k]).Fails?
    && outcome == Outcome(Run(inv, items[..k]), Some(MeaningOf(items[k]).error))
  }

  lemma RunFirst(inv: Invocation, x: Item, items: seq<Item>)
    ensures Run(inv, [x] + items) == Run(Take(inv, MeaningOf(x)).state, items)
  {
    assert ([x] + items)[0] == x && ([x] + items)[1..] == items;
  }

  lemma SetKeepsCommand(inv: Invocation, setting: Setting)
    ensures Set(inv, setting).remoteCommand == inv.remoteCommand
  {
    match setting {
      case Login(_) =>
      case PortNumber(_) =>
      case Identity(_) =>
      case HostKeys(_) =>
      case KnownHosts(_) =>
      case Agent(_) =>
      case KeysOnly =>
      case Batch(_) =>
      case Terminal(_) =>
      case Verbose =>
      case Nothing =>
    }
  }

  lemma AllMeanFirst(x: Item, items: seq<Item>)
    ensures AllMean([x] + items) <==> MeaningOf(x).Sets? && AllMean(items)
  {
    var all := [x] + items;
    assert all[0] == x && forall k :: 0 <= k < |items| ==> all[k + 1] == items[k];
    if AllMean(all) {
      forall k | 0 <= k < |items| ensures MeaningOf(items[k]).Sets? {
        assert MeaningOf(all[k + 1]).Sets?;
      }
    }
  }

  lemma FailsFirst(inv: Invocation, x: Item, items: seq<Item>, command: seq<string>, outcome: Outcome)
    requires MeaningOf(x).Fails? && outcome == Take(inv, MeaningOf(x))
    ensures Effect(inv, [x] + items, command, outcome)
  {
    var all := [x] + items;
    AllMeanFirst(x, items);
    assert all[..0] == [] && all[0] == x;
    assert Run(inv, all[..0]) == inv && AllMean(all[..0]);
    assert FailsAt(inv, all, 0, outcome);
  }

  lemma FirstAnd<T>(x: T, items: seq<T>, k: nat)
    requires k < |items|
    ensures ([x] + items)[..k + 1] == [x] + items[..k] && ([x] + items)[k + 1] == items[k]
  {
  }

  lemma FailsLater(inv: Invocation, x: Item, items: seq<Item>, k: nat, outcome: Outcome)
    requires MeaningOf(x).Sets? && FailsAt(Take(inv, MeaningOf(x)).state, items, k, outcome)
    ensures FailsAt(inv, [x] + items, k + 1, outcome)
  {
    var all := [x] + items;
    FirstAnd(x, items, k);
    AllMeanFirst(x, items[..k]);
    RunFirst(inv, x, items[..k]);
  }

  lemma EffectFirst(inv: Invocation, x: Item, items: seq<Item>, command: seq<string>, outcome: Outcome)
    requires MeaningOf(x).Sets? && Effect(Take(inv, MeaningOf(x)).state, items, command, outcome)
    ensures Effect(inv, [x] + items, command, outcome)
  {
    AllMeanFirst(x, items);
    var after := Take(inv, MeaningOf(x)).state;
    if AllMean(items) {
      RunFirst(inv, x, items);
      SetKeepsCommand(inv, MeaningOf(x).setting);
    } else {
      var k :| FailsAt(after, items, k, outcome);
      FailsLater(inv, x, items, k, outcome);
    }
  }

  /** The option word at the front is the first item, and takes effect as that item means. */
  lemma FrontItem(inv: Invocation, args: seq<string>) returns (x: Item)
    requires args != [] && args[0] != "" && args[0] != "--" && !IsCommandWord(args[0])
    ensures ApplyFront(inv, args) == Take(inv, MeaningOf(x))
    ensures Width(args[0]) <= |args| ==> Items(args) == [x] + Items(args[Width(args[0])..])
    ensures Width(args[0]) <= |args| ==> CommandWords(args) == CommandWords(args[Width(args[0])..])
    ensures Width(args[0]) > |args| ==> Items(args) == [x] && MeaningOf(x).Fails?
  {
    var arg := args[0];
    if IsDetached(arg) {
      DetachedIsValued(arg);
      if |args| == 1 {
        x := Missing(arg);
      } else {
        x := Item(arg, args[1]);
        ValueTakes(inv, arg[1], args[1]);
      }
    } else if TakesValue(arg[1]) {
      AttachedIsValued(arg);
      x := Item(arg[..2], arg[2..]);
      ValueTakes(inv, arg[1], arg[2..]);
    } else {
      SwitchIsNotValued(arg);
      x := Item(arg, "");
      SwitchTakes(inv, arg, "", OptionMeaning(""));
    }
  }

  lemma DetachedIsValued(arg: string)
    requires IsDetached(arg)
    ensures Valued(arg) && arg == ['-', arg[1]]
  {
  }

  lemma AttachedIsValued(arg: string)
    requires |arg| > 2 && arg[0] == '-' && TakesValue(arg[1])
    ensures Valued(arg[..2]) && arg[..2] == ['-', arg[1]] && !Valued(arg)
  {
  }

  lemma SwitchIsNotValued(arg: string)
    requires |arg| >= 2 && !TakesValue(arg[1])
    ensures !Valued(arg[..2]) && !Valued(arg)
  {
  }

  /**
   * Every argument list has the effect of its items in order, up to the first that fails; everything from the first
   * other word on is the remote command.
   */
  lemma {:induction false} ParseTakesEffect(inv: Invocation, args: seq<string>)
    ensures Effect(inv, Items(args), CommandWords(args), Parse(inv, args))
    decreases |args|
  {
    if args == [] {
      assert inv.remoteCommand + [] == inv.remoteCommand;
    } else if IsCommandWord(args[0]) {
    } else if args[0] == "" || args[0] == "--" {
      ParseTakesEffect(inv, args[1..]);
    } else {
      var x := FrontItem(inv, args);
      var front := ApplyFront(inv, args);
      var rest := if Width(args[0]) <= |args| then args[Width(args[0])..] else [];
      if front.error.Some? {
        FailsFirst(inv, x, Items(rest), CommandWords(args), front);
        assert Width(args[0]) > |args| ==> [x] + Items(rest) == [x];
      } else {
        ParseTakesEffect(front.state, rest);
        EffectFirst(inv, x, Items(rest), CommandWords(rest), Parse(front.state, rest));
      }
    }
  }

  // ---------- the last option that sets a field decides it ----------

  datatype Field =
    | LoginField | PortField | HostKeysField | KnownHostsField | ForwardField | DisableField | BatchField | TerminalField | VerboseField

  predicate Decides(setting: Setting, field: Field) {
    match field
    case LoginField => setting.Login?
    case PortField => setting.PortNumber?
    case HostKeysField => setting.HostKeys?
    case KnownHostsField => setting.KnownHosts?
    case ForwardField => setting.Agent?
    case DisableField => setting.Agent? || setting.KeysOnly?
    case BatchField => setting.Batch?
    case TerminalField => setting.Terminal?
    case VerboseField => setting.Verbose?
  }

  /** The field has the value that the setting asks for. */
  ghost predicate Shows(inv: Invocation, field: Field, setting: Setting)
    requires Decides(setting, field)
  {
    match field
    case LoginField => inv.login == setting.name
    case PortField => inv.port == setting.port
    case HostKeysField => inv.strictHostKeyChecking == setting.mode
    case KnownHostsField => inv.knownHostsFiles == setting.files
    case ForwardField => inv.forwardAgent == setting.on
    case DisableField => inv.disableAgent == (setting.KeysOnly? || !setting.on)
    case BatchField => inv.batchMode == setting.on
    case TerminalField => inv.forceTTY == setting.forced && inv.disableTTY == !setting.forced
    case VerboseField => inv.verbose
  }

  ghost predicate SameField(field: Field, inv: Invocation, now: Invocation) {
    match field
    case LoginField => now.login == inv.login
    case PortField => now.port == inv.port
    case HostKeysField => now.strictHostKeyChecking == inv.strictHostKeyChecking
    case KnownHostsField => now.knownHostsFiles == inv.knownHostsFiles
    case ForwardField => now.forwardAgent == inv.forwardAgent
    case DisableField => now.disableAgent == inv.disableAgent
    case BatchField => now.batchMode == inv.batchMode
    case TerminalField => now.forceTTY == inv.forceTTY && now.disableTTY == inv.disableTTY
    case VerboseField => now.verbose == inv.verbose
  }

  lemma SetKeepsAddress(inv: Invocation, setting: Setting)
    ensures setting.Login? || Set(inv, setting).login == inv.login
    ensures setting.PortNumber? || Set(inv, setting).port == inv.port
  {
  }

  lemma SetKeepsHosts(inv: Invocation, setting: Setting)
    ensures setting.HostKeys? || Set(inv, setting).strictHostKeyChecking == inv.strictHostKeyChecking
    ensures setting.KnownHosts? || Set(inv, setting).knownHostsFiles == inv.knownHostsFiles
  {
  }

  lemma SetKeepsAgent(inv: Invocation, setting: Setting)
    ensures setting.Agent? || Set(inv, setting).forwardAgent == inv.forwardAgent
  {
    match setting {
      case Login(_) =>
      case PortNumber(_) =>
      case Identity(_) =>
      case HostKeys(_) =>
      case KnownHosts(_) =>
      case Agent(_) =>
      case KeysOnly =>
      case Batch(_) =>
      case Terminal(_) =>
      case Verbose =>
      case Nothing =>
    }
  }

  lemma SetKeepsDisabled(inv: Invocation, setting: Setting)
    ensures setting.Agent? || setting.KeysOnly? || Set(inv, setting).disableAgent == inv.disableAgent
  {
    match setting {
      case Login(_) =>
      case PortNumber(_) =>
      case Identity(_) =>
      case HostKeys(_) =>
      case KnownHosts(_) =>
      case Agent(_) =>
      case KeysOnly =>
      case Batch(_) =>
      case Terminal(_) =>
      case Verbose =>
      case Nothing =>
    }
  }

  lemma SetKeepsSwitches(inv: Invocation, setting: Setting)
    ensures setting.Batch? || Set(inv, setting).batchMode == inv.batchMode
    ensures setting.Terminal? || Set(inv, setting).forceTTY == inv.forceTTY
    ensures setting.Terminal? || Set(inv, setting).disableTTY == inv.disableTTY
    ensures setting.Verbose? || Set(inv, setting).verbose == inv.verbose
  {
    match setting {
      case Login(_) =>
      case PortNumber(_) =>
      case Identity(_) =>
      case HostKeys(_) =>
      case KnownHosts(_) =>
      case Agent(_) =>
      case KeysOnly =>
      case Batch(_) =>
      case Terminal(_) =>
      case Verbose =>
      case Nothing =>
    }
  }

  lemma SetKeeps(inv: Invocation, setting: Setting, field: Field)
    requires !Decides(setting, field)
    ensures SameField(field, inv, Set(inv, setting))
  {
    SetKeepsAddress(inv, setting);
    SetKeepsHosts(inv, setting);
    SetKeepsAgent(inv, setting);
    SetKeepsDisabled(inv, setting);
    SetKeepsSwitches(inv, setting);
  }

  lemma SetShows(inv: Invocation, setting: Setting, field: Field)
    requires Decides(setting, field)
    ensures Shows(Set(inv, setting), field, setting)
  {
  }

  lemma SameThenSame(field: Field, r: Invocation, s: Invocation, t: Invocation)
    requires SameField(field, r, s) && SameField(field, s, t)
    ensures SameField(field, r, t)
  {
  }

  lemma ShowsSame(field: Field, setting: Setting, r: Invocation, s: Invocation)
    requires Decides(setting, field) && Shows(r, field, setting) && SameField(field, r, s)
    ensures Shows(s, field, setting)
  {
  }

  ghost predicate ItemDecides(x: Item, field: Field) {
    MeaningOf(x).Sets? && Decides(MeaningOf(x).setting, field)
  }

  ghost predicate NoneDecides(items: seq<Item>, field: Field) {
    forall k :: 0 <= k < |items| ==> !ItemDecides(items[k], field)
  }

  lemma {:induction false} RunKeeps(inv: Invocation, items: seq<Item>, field: Field)
    requires NoneDecides(items, field)
    ensures SameField(field, inv, Run(inv, items))
    decreases |items|
  {
    if items != [] {
      var next := Take(inv, MeaningOf(items[0])).state;
      if MeaningOf(items[0]).Sets? {
        SetKeeps(inv, MeaningOf(items[0]).setting, field);
      }
      RunKeeps(next, items[1..], field);
      SameThenSame(field, inv, next, Run(inv, items));
    }
  }

  lemma FirstShows(inv: Invocation, x: Item, items: seq<Item>, field: Field)
    requires ItemDecides(x, field) && NoneDecides(items, field)
    ensures Shows(Run(Take(inv, MeaningOf(x)).state, items), field, MeaningOf(x).setting)
  {
    var next := Take(inv, MeaningOf(x)).state;
    SetShows(inv, MeaningOf(x).setting, field);
    RunKeeps(next, items, field);
    ShowsSame(field, MeaningOf(x).setting, next, Run(next, items));
  }

  lemma {:induction false} RunFrom(inv: Invocation, items: seq<Item>, k: nat)
    requires k <= |items|
    ensures Run(inv, items) == Run(Run(inv, items[..k]), items[k..])
    decreases |items|
  {
    if k == 0 {
      assert items[..0] == [] && items[0..] == items;
    } else {
      var x, rest := items[0], items[1..];
      assert items[..k] == [x] + rest[..k - 1] && items[k..] == rest[k - 1..];
      RunFirst(inv, x, rest[..k - 1]);
      RunFrom(Take(inv, MeaningOf(x)).state, rest, k - 1);
    }
  }

  lemma RunShows(inv: Invocation, items: seq<Item>, field: Field, k: nat)
    requires k < |items| && ItemDecides(items[k], field) && NoneDecides(items[k + 1..], field)
    ensures Shows(Run(inv, items), field, MeaningOf(items[k]).setting)
  {
    var x, later := items[k], items[k + 1..];
    RunFrom(inv, items, k);
    assert items[k..] == [x] + later;
    RunFirst(Run(inv, items[..k]), x, later);
    FirstShows(Run(inv, items[..k]), x, later, field);
  }

  lemma CommandIsNoField(inv: Invocation, field: Field, command: seq<string>)
    ensures SameField(field, inv, inv.(remoteCommand := command))
  {
  }

  lemma ParsedIsRun(inv: Invocation, args: seq<string>)
    requires Parse(inv, args).error == None
    ensures AllMean(Items(args))
    ensures Parse(inv, args).state == Run(inv, Items(args)).(remoteCommand := inv.remoteCommand + CommandWords(args))
  {
    ParseTakesEffect(inv, args);
  }

  /** A field that no option sets is as before, and otherwise the last option that sets it decides it. */
  lemma LastDecides(inv: Invocation, args: seq<string>, field: Field, k: nat)
    requires Parse(inv, args).error == None
    ensures NoneDecides(Items(args), field) ==> SameField(field, inv, Parse(inv, args).state)
    ensures k < |Items(args)| && ItemDecides(Items(args)[k], field) && NoneDecides(Items(args)[k + 1..], field)
            ==> Shows(Parse(inv, args).state, field, MeaningOf(Items(args)[k]).setting)
  {
    var items, state := Items(args), Parse(inv, args).state;
    var run := Run(inv, items);
    ParsedIsRun(inv, args);
    CommandIsNoField(run, field, inv.remoteCommand + CommandWords(args));
    if NoneDecides(items, field) {
      RunKeeps(inv, items, field);
      SameThenSame(field, inv, run, state);
    } else if k < |items| && ItemDecides(items[k], field) && NoneDecides(items[k + 1..], field) {
      RunShows(inv, items, field, k);
      ShowsSame(field, MeaningOf(items[k]).setting, run, state);
    }
  }

  /** The first option that means nothing, and what is wrong with it. */
  ghost predicate FirstFailure(items: seq<Item>, k: nat, error: Error) {
    && k < |items| && MeaningOf(items[k]) == Fails(error)
    && forall j :: 0 <= j < k ==> MeaningOf(items[j]).Sets?
  }

  lemma FirstFailureIs(inv: Invocation, items: seq<Item>, k: nat, outcome: Outcome, l: nat, error: Error)
    requires FailsAt(inv, items, k, outcome)
    ensures outcome.error.Some? && FirstFailure(items, k, outcome.error.value)
    ensures FirstFailure(items, l, error) ==> outcome.error == Some(error)
  {
    forall j | 0 <= j < k ensures MeaningOf(items[j]).Sets? {
      assert items[..k][j] == items[j];
    }
    assert FirstFailure(items, l, error) ==> l == k;
  }

  /** The error is that of the first option that fails, and there is none exactly when all options mean something. */
  lemma FirstErrorStops(inv: Invocation, args: seq<string>, error: Error)
    ensures Parse(inv, args).error == None <==> AllMean(Items(args))
    ensures Parse(inv, args).error == Some(error) <==> exists k :: FirstFailure(Items(args), k, error)
  {
    var items, outcome := Items(args), Parse(inv, args);
    ParseTakesEffect(inv, args);
    if !AllMean(items) {
      var k :| FailsAt(inv, items, k, outcome);
      FirstFailureIs(inv, items, k, outcome, k, error);
      if l :| FirstFailure(items, l, error) {
        FirstFailureIs(inv, items, k, outcome, l, error);
      }
    }
  }

  /** The identity files of the options, in order. */
  function Files(items: seq<Item>): seq<string> {
    if items == [] then []
    else
      (match MeaningOf(items[0])
       case Sets(Identity(file)) => [file]
       case _ => [])
      + Files(items[1..])
  }

  lemma SetFiles(inv: Invocation, setting: Setting)
    ensures Set(inv, setting).identityFiles == inv.identityFiles + if setting.Identity? then [setting.file] else []
  {
    match setting {
      case Login(_) =>
      case PortNumber(_) =>
      case Identity(_) =>
      case HostKeys(_) =>
      case KnownHosts(_) =>
      case Agent(_) =>
      case KeysOnly =>
      case Batch(_) =>
      case Terminal(_) =>
      case Verbose =>
      case Nothing =>
    }
  }

  lemma TakeFiles(inv: Invocation, meaning: Meaning)
    ensures Take(inv, meaning).state.identityFiles
            == inv.identityFiles + if meaning.Sets? && meaning.setting.Identity? then [meaning.setting.file] else []
  {
    if meaning.Sets? {
      SetFiles(inv, meaning.setting);
    }
  }

  lemma {:induction false} RunFiles(inv: Invocation, items: seq<Item>)
    ensures Run(inv, items).identityFiles == inv.identityFiles + Files(items)
    decreases |items|
  {
    if items == [] {
    } else {
      var meaning := MeaningOf(items[0]);
      var next := Take(inv, meaning).state;
      TakeFiles(inv, meaning);
      RunFiles(next, items[1..]);
      Assoc(inv.identityFiles, if meaning.Sets? && meaning.setting.Identity? then [meaning.setting.file] else [], Files(items[1..]));
    }
  }

  /** Identity files and the words of the remote command are appended in the order in which they are given. */
  lemma FilesInOrder(inv: Invocation, args: seq<string>)
    requires Parse(inv, args).error == None
    ensures Parse(inv, args).state.identityFiles == inv.identityFiles + Files(Items(args))
    ensures Parse(inv, args).state.remoteCommand == inv.remoteCommand + CommandWords(args)
  {
    ParsedIsRun(inv, args);
    RunFiles(inv, Items(args));
  }

  // ---------- the same, by the words themselves ----------

  ghost predicate HasWord(x: Item, words: set<string>) {
    x.word in words
  }

  ghost predicate NoneOf(items: seq<Item>, words: set<string>) {
    forall k :: 0 <= k < |items| ==> !HasWord(items[k], words)
  }

  /** Item `k` is the last one whose word is one of `words`. */
  ghost predicate LastOf(items: seq<Item>, words: set<string>, k: nat) {
    k < |items| && HasWord(items[k], words) && forall j :: k < j < |items| ==> !HasWord(items[j], words)
  }

  /** The last word among `words` is `word`. */
  ghost predicate LastIs(items: seq<Item>, words: set<string>, word: string) {
    exists k: nat :: LastOf(items, words, k) && items[k].word == word
  }

  lemma LastIsAt(items: seq<Item>, words: set<string>, k: nat, word: string)
    requires LastOf(items, words, k)
    ensures LastIs(items, words, word) <==> items[k].word == word
    ensures !NoneOf(items, words)
  {
    if LastIs(items, words, word) {
      var l: nat :| LastOf(items, words, l) && items[l].word == word;
    }
  }

  lemma NoneIsLast(items: seq<Item>, words: set<string>, word: string)
    requires NoneOf(items, words)
    ensures !LastIs(items, words, word)
  {
  }

  lemma {:induction false} SomeLast(items: seq<Item>, words: set<string>) returns (k: nat)
    ensures NoneOf(items, words) || LastOf(items, words, k)
  {
    k := 0;
    for i := 0 to |items|
      invariant NoneOf(items[..i], words) || (k < i && LastOf(items[..i], words, k))
    {
      ghost var before := items[..i];
      assert items[..i + 1] == before + [items[i]];
      if HasWord(items[i], words) {
        k := i;
      }
    }
    assert items[..|items|] == items;
  }

  /** Among `items` that all mean something, exactly those with one of `words` set the field. */
  ghost predicate SetBy(items: seq<Item>, field: Field, words: set<string>) {
    forall k :: 0 <= k < |items| ==> (ItemDecides(items[k], field) <==> HasWord(items[k], words))
  }

  lemma LastWordDecides(inv: Invocation, args: seq<string>, field: Field, words: set<string>, k: nat)
    requires Parse(inv, args).error == None && SetBy(Items(args), field, words)
    ensures NoneOf(Items(args), words) ==> SameField(field, inv, Parse(inv, args).state)
    ensures LastOf(Items(args), words, k) ==>
              ItemDecides(Items(args)[k], field) && Shows(Parse(inv, args).state, field, MeaningOf(Items(args)[k]).setting)
  {
    var items := Items(args);
    if LastOf(items, words, k) {
      var later := items[k + 1..];
      forall j | 0 <= j < |later| ensures !ItemDecides(later[j], field) {
        assert later[j] == items[k + 1 + j];
      }
    }
    LastDecides(inv, args, field, k);
  }

  lemma WordSets(word: string, value: string, option: Meaning)
    ensures var meaning := WordMeaning(word, value, option);
            meaning.Sets? && word != "-o" ==>
              && (meaning.setting.Agent? <==> word == "-A" || word == "-a")
              && (meaning.setting.Agent? ==> meaning.setting.on == (word == "-A"))
              && !meaning.setting.KeysOnly?
  {
  }

  lemma AgentWord(x: Item)
    requires MeaningOf(x).Sets? && x.word != "-o"
    ensures ItemDecides(x, ForwardField) <==> HasWord(x, {"-A", "-a"})
    ensures ItemDecides(x, DisableField) <==> HasWord(x, {"-A", "-a"})
    ensures ItemDecides(x, ForwardField) ==> MeaningOf(x).setting.on == (x.word == "-A")
  {
    WordSets(x.word, x.value, OptionMeaning(x.value));
  }

  lemma AgentWords(items: seq<Item>)
    requires AllMean(items) && NoneOf(items, {"-o"})
    ensures SetBy(items, ForwardField, {"-A", "-a"}) && SetBy(items, DisableField, {"-A", "-a"})
  {
    forall k | 0 <= k < |items|
      ensures ItemDecides(items[k], ForwardField) <==> HasWord(items[k], {"-A", "-a"})
      ensures ItemDecides(items[k], DisableField) <==> HasWord(items[k], {"-A", "-a"})
    {
      assert !HasWord(items[k], {"-o"});
      AgentWord(items[k]);
    }
  }

  lemma SameAgent(inv: Invocation, now: Invocation)
    requires SameField(ForwardField, inv, now) && SameField(DisableField, inv, now)
    ensures now.forwardAgent == inv.forwardAgent && now.disableAgent == inv.disableAgent
  {
  }

  lemma ShownAgent(now: Invocation, setting: Setting)
    requires setting.Agent? && Shows(now, ForwardField, setting) && Shows(now, DisableField, setting)
    ensures now.forwardAgent == setting.on && now.disableAgent == !setting.on
  {
  }

  /** Without "-o", the last of "-A" and "-a" decides both agent fields. */
  lemma AgentSwitches(inv: Invocation, args: seq<string>)
    requires Parse(inv, args).error == None && NoneOf(Items(args), {"-o"})
    ensures var items, state := Items(args), Parse(inv, args).state;
            && (state.forwardAgent <==> LastIs(items, {"-A", "-a"}, "-A") || (NoneOf(items, {"-A", "-a"}) && inv.forwardAgent))
            && (state.disableAgent <==> LastIs(items, {"-A", "-a"}, "-a") || (NoneOf(items, {"-A", "-a"}) && inv.disableAgent))
  {
    var items, state := Items(args), Parse(inv, args).state;
    var words := {"-A", "-a"};
    ParsedIsRun(inv, args);
    AgentWords(items);
    var k := SomeLast(items, words);
    LastWordDecides(inv, args, ForwardField, words, k);
    LastWordDecides(inv, args, DisableField, words, k);
    if NoneOf(items, words) {
      NoneIsLast(items, words, "-A");
      NoneIsLast(items, words, "-a");
      SameAgent(inv, state);
    } else {
      LastIsAt(items, words, k, "-A");
      LastIsAt(items, words, k, "-a");
      assert !HasWord(items[k], {"-o"});
      AgentWord(items[k]);
      ShownAgent(state, MeaningOf(items[k]).setting);
    }
  }

  lemma ValueSets(word: string, value: string, option: Meaning)
    ensures var meaning := WordMeaning(word, value, option);
            meaning.Sets? && word != "-o" ==>
              && (meaning.setting.Login? <==> word == "-l")
              && (meaning.setting.Login? ==> meaning.setting.name == value)
              && (meaning.setting.PortNumber? <==> word == "-p")
              && (meaning.setting.PortNumber? ==> Atoi(value) == Some(meaning.setting.port))
  {
  }

  lemma ValueWord(x: Item)
    requires MeaningOf(x).Sets? && x.word != "-o"
    ensures ItemDecides(x, LoginField) <==> HasWord(x, {"-l"})
    ensures ItemDecides(x, LoginField) ==> MeaningOf(x).setting.name == x.value
    ensures ItemDecides(x, PortField) <==> HasWord(x, {"-p"})
    ensures ItemDecides(x, PortField) ==> Atoi(x.value) == Some(MeaningOf(x).setting.port)
  {
    ValueSets(x.word, x.value, OptionMeaning(x.value));
  }

  lemma ValueWords(items: seq<Item>)
    requires AllMean(items) && NoneOf(items, {"-o"})
    ensures SetBy(items, LoginField, {"-l"}) && SetBy(items, PortField, {"-p"})
  {
    forall k | 0 <= k < |items|
      ensures ItemDecides(items[k], LoginField) <==> HasWord(items[k], {"-l"})
      ensures ItemDecides(items[k], PortField) <==> HasWord(items[k], {"-p"})
    {
      assert !HasWord(items[k], {"-o"});
      ValueWord(items[k]);
    }
  }

  /** Without "-o", the last "-l" gives the login. */
  lemma LastLogin(inv: Invocation, args: seq<string>, k: nat)
    requires Parse(inv, args).error == None && NoneOf(Items(args), {"-o"})
    ensures LastOf(Items(args), {"-l"}, k) ==> Items(args)[k].Item? && Parse(inv, args).state.login == Items(args)[k].value
    ensures NoneOf(Items(args), {"-l"}) ==> Parse(inv, args).state.login == inv.login
  {
    var items := Items(args);
    ParsedIsRun(inv, args);
    ValueWords(items);
    LastWordDecides(inv, args, LoginField, {"-l"}, k);
    if LastOf(items, {"-l"}, k) {
      assert !HasWord(items[k], {"-o"});
      ValueWord(items[k]);
    }
  }

  /** Without "-o", the last "-p" gives the port. */
  lemma LastPort(inv: Invocation, args: seq<string>, k: nat)
    requires Parse(inv, args).error == None && NoneOf(Items(args), {"-o"})
    ensures LastOf(Items(args), {"-p"}, k) ==> Items(args)[k].Item? && Atoi(Items(args)[k].value) == Some(Parse(inv, args).state.port)
    ensures NoneOf(Items(args), {"-p"}) ==> Parse(inv, args).state.port == inv.port
  {
    var items := Items(args);
    ParsedIsRun(inv, args);
    ValueWords(items);
    LastWordDecides(inv, args, PortField, {"-p"}, k);
    if LastOf(items, {"-p"}, k) {
      assert !HasWord(items[k], {"-o"});
      ValueWord(items[k]);
    }
  }

  /** No "-o" option asks for a terminal or for more output. */
  ghost predicate NoSwitch(meaning: Meaning) {
    meaning.Sets? ==> !meaning.setting.Terminal? && !meaning.setting.Verbose?
  }

  lemma NamedNoSwitch(key: string, value: string, host: Meaning, rest: Meaning)
    requires NoSwitch(host) && NoSwitch(rest)
    ensures NoSwitch(NamedAs(key, value, host, rest))
  {
  }

  lemma HostNoSwitch(value: string)
    ensures NoSwitch(HostKeysMeaning(value))
  {
  }

  lemma NamedMeaningNoSwitch(key: string, value: string)
    ensures NoSwitch(NamedMeaning(key, value))
  {
    HostNoSwitch(value);
    SwitchedNoSwitch(key, Truthy(value));
    NamedNoSwitch(key, value, HostKeysMeaning(value), SwitchedMeaning(key, Truthy(value)));
  }

  lemma SwitchedNoSwitch(key: string, on: bool)
    ensures NoSwitch(SwitchedMeaning(key, on))
  {
  }

  lemma PairNoSwitch(pair: Option<(string, string)>, value: string)
    ensures NoSwitch(PairMeaning(pair, value))
  {
    if pair.Some? {
      NamedMeaningNoSwitch(pair.value.0, pair.value.1);
    }
  }

  lemma OptionNoSwitch(value: string)
    ensures NoSwitch(OptionMeaning(value))
  {
    PairNoSwitch(KeyValue(value), value);
  }

  lemma SwitchSets(word: string, value: string, option: Meaning)
    requires NoSwitch(option)
    ensures var meaning := WordMeaning(word, value, option);
            meaning.Sets? ==>
              && (meaning.setting.Terminal? <==> word == "-t" || word == "-T")
              && (meaning.setting.Terminal? ==> meaning.setting.forced == (word == "-t"))
              && (meaning.setting.Verbose? <==> "-v" <= word)
  {
  }

  lemma SwitchWord(x: Item)
    requires MeaningOf(x).Sets?
    ensures ItemDecides(x, TerminalField) <==> HasWord(x, {"-t", "-T"})
    ensures ItemDecides(x, TerminalField) ==> MeaningOf(x).setting.forced == (x.word == "-t")
    ensures ItemDecides(x, VerboseField) <==> "-v" <= x.word
  {
    var option := OptionMeaning(x.value);
    OptionNoSwitch(x.value);
    SwitchSets(x.word, x.value, option);
    assert MeaningOf(x) == WordMeaning(x.word, x.value, option);
  }

  lemma TerminalWords(items: seq<Item>)
    requires AllMean(items)
    ensures SetBy(items, TerminalField, {"-t", "-T"})
  {
    forall k | 0 <= k < |items| ensures ItemDecides(items[k], TerminalField) <==> HasWord(items[k], {"-t", "-T"}) {
      SwitchWord(items[k]);
    }
  }

  lemma ShownTerminal(now: Invocation, setting: Setting)
    requires setting.Terminal? && Shows(now, TerminalField, setting)
    ensures now.forceTTY == setting.forced && now.disableTTY == !setting.forced
  {
  }

  /** The last of "-t" and "-T" decides both terminal fields, whatever else is given. */
  lemma TerminalSwitches(inv: Invocation, args: seq<string>)
    requires Parse(inv, args).error == None
    ensures var items, state := Items(args), Parse(inv, args).state;
            && (state.forceTTY <==> LastIs(items, {"-t", "-T"}, "-t") || (NoneOf(items, {"-t", "-T"}) && inv.forceTTY))
            && (state.disableTTY <==> LastIs(items, {"-t", "-T"}, "-T") || (NoneOf(items, {"-t", "-T"}) && inv.disableTTY))
  {
    var items, state := Items(args), Parse(inv, args).state;
    var words := {"-t", "-T"};
    ParsedIsRun(inv, args);
    TerminalWords(items);
    var k := SomeLast(items, words);
    LastWordDecides(inv, args, TerminalField, words, k);
    if NoneOf(items, words) {
      NoneIsLast(items, words, "-t");
      NoneIsLast(items, words, "-T");
    } else {
      LastIsAt(items, words, k, "-t");
      LastIsAt(items, words, k, "-T");
      SwitchWord(items[k]);
      ShownTerminal(state, MeaningOf(items[k]).setting);
    }
  }

  ghost predicate AsksVerbose(items: seq<Item>) {
    exists k :: 0 <= k < |items| && "-v" <= items[k].word
  }

  lemma VerboseFirst(x: Item, items: seq<Item>)
    ensures AsksVerbose([x] + items) <==> "-v" <= x.word || AsksVerbose(items)
  {
    var all := [x] + items;
    assert all[0] == x;
    if k :| 0 <= k < |items| && "-v" <= items[k].word {
      assert all[k + 1] == items[k];
    }
  }

  lemma SetVerbose(inv: Invocation, setting: Setting)
    ensures Set(inv, setting).verbose <==> inv.verbose || setting.Verbose?
  {
    match setting {
      case Login(_) =>
      case PortNumber(_) =>
      case Identity(_) =>
      case HostKeys(_) =>
      case KnownHosts(_) =>
      case Agent(_) =>
      case KeysOnly =>
      case Batch(_) =>
      case Terminal(_) =>
      case Verbose =>
      case Nothing =>
    }
  }

  lemma TakeSets(inv: Invocation, meaning: Meaning)
    requires meaning.Sets?
    ensures Take(inv, meaning).state.verbose <==> inv.verbose || Decides(meaning.setting, VerboseField)
  {
    SetVerbose(inv, meaning.setting);
  }

  lemma TakeVerbose(inv: Invocation, x: Item)
    requires MeaningOf(x).Sets?
    ensures Take(inv, MeaningOf(x)).state.verbose <==> inv.verbose || "-v" <= x.word
  {
    SwitchWord(x);
    TakeSets(inv, MeaningOf(x));
  }

  lemma {:induction false} RunVerbose(inv: Invocation, items: seq<Item>)
    requires AllMean(items)
    ensures Run(inv, items).verbose <==> inv.verbose || AsksVerbose(items)
    decreases |items|
  {
    if items != [] {
      var x, rest := items[0], items[1..];
      assert items == [x] + rest;
      AllMeanFirst(x, rest);
      VerboseFirst(x, rest);
      TakeVerbose(inv, x);
      RunVerbose(Take(inv, MeaningOf(x)).state, rest);
    }
  }

  /** More output is asked for exactly by the options that start with "-v". */
  lemma VerboseSwitches(inv: Invocation, args: seq<string>)
    requires Parse(inv, args).error == None
    ensures Parse(inv, args).state.verbose <==> inv.verbose || exists k :: 0 <= k < |Items(args)| && "-v" <= Items(args)[k].word
  {
    ParsedIsRun(inv, args);
    RunVerbose(inv, Items(args));
    assert AsksVerbose(Items(args)) <==> exists k :: 0 <= k < |Items(args)| && "-v" <= Items(args)[k].word;
  }

  /** Every other option word stops the parser, and only such a word, a missing value or a bad value does. */
  lemma UnknownWordFails(word: string, value: string)
    requires word !in {"-l", "-p", "-i", "-o", "-A", "-a", "-t", "-T"} && !("-v" <= word)
    ensures MeaningOf(Item(word, value)) == Fails(UnsupportedFlag(word))
  {
  }

  // ---------- reading the words of one "-o" option ----------

  /** The key and the value stand around the first '=', or are two words. */
  lemma KeyValueReads(value: string, key: string, rest: string)
    ensures value == key + "=" + rest && '=' !in key ==> KeyValue(value) == Some(Normalised(key, rest))
    ensures '=' !in value ==> KeyValue(value) == if |Fields(value)| == 2 then Some(Normalised(Fields(value)[0], Fields(value)[1])) else None
  {
    if '=' !in key {
      CutAt(key, rest);
    }
    if '=' !in value {
      NothingToCut(value);
    }
  }

  lemma {:induction false} NothingToCut(s: string)
    requires '=' !in s
    ensures Cut(s) == None
  {
    if s != "" {
      NothingToCut(s[1..]);
    }
  }

  ghost predicate AllQuotes(s: string) {
    forall c :: c in s ==> c == '"'
  }

  /** Quotes are taken from both ends, and only they. */
  lemma {:induction false} QuotesTrimmed(s: string) returns (p: string, q: string)
    ensures s == p + TrimQuotes(s) + q && AllQuotes(p) && AllQuotes(q)
    ensures var r := TrimQuotes(s); r == "" || (r[0] != '"' && r[|r| - 1] != '"')
    decreases |s|
  {
    if s != "" && s[0] == '"' {
      p, q := QuotesTrimmed(s[1..]);
      p := ['"'] + p;
    } else if s != "" && s[|s| - 1] == '"' {
      p, q := QuotesTrimmed(s[..|s| - 1]);
      q := q + ['"'];
    } else {
      p, q := "", "";
    }
  }

  /** Dashes are left out wherever they stand, and nothing else is. */
  lemma {:induction false} DashesLeftOut(s: string, t: string)
    ensures WithoutDashes(s + "-" + t) == WithoutDashes(s) + WithoutDashes(t)
    ensures '-' !in s ==> WithoutDashes(s) == s
  {
    if s == "" {
      assert s + "-" + t == ['-'] + t;
      DashesCons('-', t);
    } else {
      var c, rest := s[0], s[1..];
      assert s == [c] + rest && s + "-" + t == [c] + (rest + "-" + t);
      DashesLeftOut(rest, t);
      DashesCons(c, rest);
      DashesCons(c, rest + "-" + t);
      Assoc(if c == '-' then "" else [c], WithoutDashes(rest), WithoutDashes(t));
    }
  }

  lemma DashesCons(c: char, s: string)
    ensures WithoutDashes([c] + s) == (if c == '-' then "" else [c]) + WithoutDashes(s)
  {
    assert ([c] + s)[1..] == s;
  }

  predicate IsTrueWord(v: string) {
    v == "yes" || v == "true" || v == "on" || v == "1"
  }

  lemma TruthyOfTrimmed(value: string, word: string)
    requires TrimSpace(value) == word
    ensures Truthy(value) <==> IsTrueWord(ToLower(word))
  {
  }

  /** Only four words are truthy, in either case and with any blanks around them. */
  lemma TruthyWords(p: string, word: string, q: string)
    requires Blank(p) && Blank(q) && (word == "" || (!IsSpace(word[0]) && !IsSpace(word[|word| - 1])))
    ensures Truthy(p + word + q) <==> IsTrueWord(ToLower(word))
  {
    TrimSpaceIs(p, word, q);
    TruthyOfTrimmed(p + word + q, word);
  }

  const CAPITALS := "ABCDEFGHIJKLMNOPQRSTUVWXYZ"
  const SMALL := "abcdefghijklmnopqrstuvwxyz"

  /** Capital letters become the small ones, and other ASCII characters stay. */
  lemma LowerLetters(s: string, i: nat)
    requires i < |s| && s[i] < '\U{80}'
    ensures |ToLower(s)| == |s|
    ensures forall k :: 0 <= k < 26 && s[i] == CAPITALS[k] ==> ToLower(s)[i] == SMALL[k]
    ensures s[i] !in CAPITALS ==> ToLower(s)[i] == s[i]
  {
  }
}
