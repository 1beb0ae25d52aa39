/**
 * perf_monitor's configuration module: the option setter, the begin/end
 * hooks of a configuration block, the peg (counter) selection done when a
 * module is added, and the hand-over of the finished configuration.
 *
 * Each operation has a specification function over values, whose ensures
 * state what the operation promises, and a method of PerfMonModule that
 * updates the fields step by step and is proved to agree with it.
 */
module PerfModule {
  import opened Wrappers

  /** The bits of perf_flags this module sets or clears. */
  datatype PerfFlag = Base | TimeCount | Summary | MaxBaseStats | Console | Event | Flow | FlowIp

  /** A registered module: its name and its peg table (None: the table pointer is null). */
  datatype Module = Module(name: string, pegs: Option<seq<string>>)

  /** The fields of the configuration record that this module reads or writes. */
  datatype PerfConfig = PerfConfig(
    pktCnt: int,
    sampleInterval: int,
    flowipMemcap: int,
    maxFileSize: int,
    flowMaxPortToTrack: int,
    baseReset: bool,
    file: bool,
    flowFile: bool,
    flowipFile: bool,
    perfFlags: set<PerfFlag>,
    modules: seq<Module>,
    modPegIdxs: seq<seq<nat>>)

  /** The record after memset to zero: no flags, no modules. */
  const Zeroed: PerfConfig := PerfConfig(0, 0, 0, 0, 0, false, false, false, false, {}, [], [])

  /** A configured value: the option it belongs to and its integer, boolean and string readings. */
  datatype Value = Value(name: string, num: int, flag: bool, text: string)

  /** Everything set, begin and end act on: the record plus the pending module name and peg list. */
  datatype PerfState = PerfState(config: PerfConfig, modName: string, modPegs: string)

  datatype Outcome = Outcome(ok: bool, state: PerfState)

  datatype Added = Added(ok: bool, config: PerfConfig)

  const ModulesBlock: string := "perf_monitor.modules"

  /** The options of the perf_monitor block and of a modules entry. */
  datatype Opt =
    | Packets | Seconds | FlowIpMemcap | MaxFileSize | FlowPorts | Reset | MaxOpt | ConsoleOpt
    | EventsOpt | FileOpt | FlowOpt | FlowFileOpt | FlowIpOpt | FlowIpFileOpt | NameOpt | PegsOpt

  /** The name each option is configured under. */
  const OptionNames: map<string, Opt> := map[
    "packets" := Packets, "seconds" := Seconds, "flow_ip_memcap" := FlowIpMemcap,
    "max_file_size" := MaxFileSize, "flow_ports" := FlowPorts, "reset" := Reset, "max" := MaxOpt,
    "console" := ConsoleOpt, "events" := EventsOpt, "file" := FileOpt, "flow" := FlowOpt,
    "flow_file" := FlowFileOpt, "flow_ip" := FlowIpOpt, "flow_ip_file" := FlowIpFileOpt,
    "name" := NameOpt, "pegs" := PegsOpt]

  /** The bit each boolean flag option adds to perf_flags when set to true. */
  function FlagOf(o: Opt): Option<PerfFlag> {
    match o
    case MaxOpt => Some(MaxBaseStats)
    case ConsoleOpt => Some(Console)
    case EventsOpt => Some(Event)
    case FlowOpt | FlowFileOpt => Some(Flow)
    case FlowIpOpt | FlowIpFileOpt => Some(FlowIp)
    case _ => None
  }

  // ----- set, begin and get_config -----

  /** The options set stores in the record rather than in the pending module entry. */
  predicate RecordOption(o: Opt) {
    o != NameOpt && o != PegsOpt
  }

  /**
   * What set does to the record, field by field. Only the field an option
   * names changes; flag options add their bit when set to true and never
   * remove one; only "seconds" with 0 can remove a bit (TIME_COUNT).
   */
  function SetRecord(c: PerfConfig, o: Opt, v: Value, rolloverThresh: int): (r: PerfConfig)
    requires RecordOption(o)
    ensures r.modules == c.modules && r.modPegIdxs == c.modPegIdxs
  {
    match o
    case Packets => c.(pktCnt := v.num)
    case Seconds =>
      c.(sampleInterval := v.num,
         perfFlags := if v.num == 0 then c.perfFlags + {Summary} - {TimeCount} else c.perfFlags)
    case FlowIpMemcap => c.(flowipMemcap := v.num)
    case MaxFileSize => c.(maxFileSize := v.num - rolloverThresh)
    case FlowPorts => c.(flowMaxPortToTrack := v.num)
    case Reset => c.(baseReset := v.flag)
    case FileOpt => c.(file := v.flag)
    case FlowFileOpt =>
      if v.flag then c.(perfFlags := c.perfFlags + {Flow}, flowFile := true) else c
    case FlowIpFileOpt =>
      if v.flag then c.(perfFlags := c.perfFlags + {FlowIp}, flowipFile := true) else c
    case MaxOpt | ConsoleOpt | EventsOpt | FlowOpt | FlowIpOpt =>
      if v.flag then c.(perfFlags := c.perfFlags + {FlagOf(o).value}) else c
  }

  /**
   * The effect of each record option: every field of the record is either
   * the one the option names, with the value given, or unchanged; flag
   * options only ever add their bit, and only "seconds" with 0 removes one.
   */
  lemma SetRecordEffects(c: PerfConfig, o: Opt, v: Value, rolloverThresh: int)
    requires RecordOption(o)
    ensures var r := SetRecord(c, o, v, rolloverThresh);
      && r.modules == c.modules && r.modPegIdxs == c.modPegIdxs
      && (o == Packets ==> r.pktCnt == v.num)
      && (o != Packets ==> r.pktCnt == c.pktCnt)
      && (o == Seconds ==> r.sampleInterval == v.num)
      && (o != Seconds ==> r.sampleInterval == c.sampleInterval)
      && (o == FlowIpMemcap ==> r.flowipMemcap == v.num)
      && (o != FlowIpMemcap ==> r.flowipMemcap == c.flowipMemcap)
      && (o == MaxFileSize ==> r.maxFileSize + rolloverThresh == v.num)
      && (o != MaxFileSize ==> r.maxFileSize == c.maxFileSize)
      && (o == FlowPorts ==> r.flowMaxPortToTrack == v.num)
      && (o != FlowPorts ==> r.flowMaxPortToTrack == c.flowMaxPortToTrack)
      && (o == Reset ==> r.baseReset == v.flag)
      && (o != Reset ==> r.baseReset == c.baseReset)
      && (o == FileOpt ==> r.file == v.flag)
      && (o != FileOpt ==> r.file == c.file)
      && (o == FlowFileOpt ==> r.flowFile == (c.flowFile || v.flag))
      && (o != FlowFileOpt ==> r.flowFile == c.flowFile)
      && (o == FlowIpFileOpt ==> r.flowipFile == (c.flowipFile || v.flag))
      && (o != FlowIpFileOpt ==> r.flowipFile == c.flowipFile)
      && (o == Seconds ==>
            r.perfFlags == if v.num == 0 then c.perfFlags + {Summary} - {TimeCount} else c.perfFlags)
      && (FlagOf(o).Some? ==>
            r.perfFlags == if v.flag then c.perfFlags + {FlagOf(o).value} else c.perfFlags)
      && (FlagOf(o).None? && o != Seconds ==> r.perfFlags == c.perfFlags)
      && (o != Seconds ==> c.perfFlags <= r.perfFlags)
  {
    match o
    case Packets =>
    case Seconds =>
    case FlowIpMemcap =>
    case MaxFileSize =>
    case FlowPorts =>
    case Reset =>
    case FileOpt =>
    case FlowFileOpt =>
    case FlowIpFileOpt =>
    case MaxOpt =>
    case ConsoleOpt =>
    case EventsOpt =>
    case FlowOpt =>
    case FlowIpOpt =>
  }

  /**
   * PerfMonModule::set: applies one configured value. An unknown option is
   * refused and changes nothing; "name" and "pegs" fill the pending module
   * entry; every other option changes the record as SetRecord says.
   */
  function Set(st: PerfState, v: Value, rolloverThresh: int): (r: Outcome)
    ensures r.ok <==> v.name in OptionNames
    ensures !r.ok ==> r.state == st
    ensures v.name in OptionNames && RecordOption(OptionNames[v.name]) ==>
      r.state == st.(config := SetRecord(st.config, OptionNames[v.name], v, rolloverThresh))
    ensures v.name in OptionNames && OptionNames[v.name] == NameOpt ==> r.state == st.(modName := v.text)
    ensures v.name in OptionNames && OptionNames[v.name] == PegsOpt ==> r.state == st.(modPegs := v.text)
  {
    if v.name !in OptionNames then Outcome(false, st)
    else
      var o := OptionNames[v.name];
      if o == NameOpt then Outcome(true, st.(modName := v.text))
      else if o == PegsOpt then Outcome(true, st.(modPegs := v.text))
      else Outcome(true, st.(config := SetRecord(st.config, o, v, rolloverThresh)))
  }

  /**
   * PerfMonModule::begin: opening a modules entry forgets the pending name
   * and pegs; opening the perf_monitor block resets the record to zero with
   * exactly BASE and TIME_COUNT set.
   */
  function Begin(st: PerfState, fqn: string): (r: PerfState)
    ensures fqn == ModulesBlock ==> r.config == st.config && r.modName == "" && r.modPegs == ""
    ensures fqn != ModulesBlock ==>
      && r.modName == st.modName && r.modPegs == st.modPegs
      && r.config.perfFlags == {Base, TimeCount}
      && r.config.modules == [] && r.config.modPegIdxs == []
      && r.config.(perfFlags := {}) == Zeroed
  {
    if fqn == ModulesBlock then st.(modName := "", modPegs := "")
    else st.(config := Zeroed.(perfFlags := {Base, TimeCount}))
  }

  // ----- tokens of a peg list -----

  /** The separators the peg-list tokenizer skips: space, tab, newline, vertical tab, form feed, return. */
  predicate IsSpace(c: char) {
    c == ' ' || ('\t' <= c <= '\r')
  }

  function WordEnd(s: string, i: nat): (e: nat)
    requires i <= |s|
    ensures i <= e <= |s|
    ensures forall j :: i <= j < e ==> !IsSpace(s[j])
    ensures e < |s| ==> IsSpace(s[e])
    decreases |s| - i
  {
    if i == |s| || IsSpace(s[i]) then i else WordEnd(s, i + 1)
  }

  /**
   * The whitespace-separated words of a peg list. No word is empty or holds
   * a separator, and there are none exactly when the list is blank.
   */
  function Tokens(s: string): (r: seq<string>)
    ensures forall t :: 0 <= t < |r| ==> r[t] != [] && forall j :: 0 <= j < |r[t]| ==> !IsSpace(r[t][j])
    ensures r == [] <==> forall j :: 0 <= j < |s| ==> IsSpace(s[j])
    decreases |s|
  {
    if s == [] then []
    else if IsSpace(s[0]) then
      assert forall j :: 0 < j < |s| ==> s[j] == s[1..][j - 1];
      Tokens(s[1..])
    else
      var e := WordEnd(s, 0);
      [s[..e]] + Tokens(s[e..])
  }

  /** A peg name as a list holds it: non-empty, with no separator. */
  predicate IsWord(w: string) {
    w != [] && forall j :: 0 <= j < |w| ==> !IsSpace(w[j])
  }

  /** Words written one after another with a single space between them. */
  function Join(ws: seq<string>): string
  {
    if ws == [] then []
    else if |ws| == 1 then ws[0]
    else ws[0] + " " + Join(ws[1..])
  }

  lemma {:induction false} WordEndAfterWord(w: string, s: string, i: nat)
    requires IsWord(w) && i <= |w| && (s == [] || IsSpace(s[0]))
    ensures WordEnd(w + s, i) == |w|
    decreases |w| - i
  {
    if i < |w| {
      assert (w + s)[i] == w[i];
      WordEndAfterWord(w, s, i + 1);
    } else if s != [] {
      assert (w + s)[i] == s[0];
    }
  }

  lemma TokensAfterWord(w: string, s: string)
    requires IsWord(w) && (s == [] || IsSpace(s[0]))
    ensures Tokens(w + s) == [w] + Tokens(s)
  {
    WordEndAfterWord(w, s, 0);
    assert (w + s)[0] == w[0];
    assert (w + s)[..|w|] == w;
    assert (w + s)[|w|..] == s;
  }

  /** Tokenizing a list of words written with single spaces gives back the words. */
  lemma {:induction false} TokensJoin(ws: seq<string>)
    requires forall t :: 0 <= t < |ws| ==> IsWord(ws[t])
    ensures Tokens(Join(ws)) == ws
  {
    if |ws| == 1 {
      TokensAfterWord(ws[0], []);
      assert ws[0] + [] == ws[0];
    } else if |ws| > 1 {
      var rest := " " + Join(ws[1..]);
      TokensAfterWord(ws[0], rest);
      assert ws[0] + " " + Join(ws[1..]) == ws[0] + rest;
      assert rest[1..] == Join(ws[1..]);
      TokensJoin(ws[1..]);
      assert [ws[0]] + ws[1..] == ws;
    }
  }

  // ----- add_module -----

  /** The names a module's peg table holds; a null table holds none. */
  function PegTable(m: Module): (table: seq<string>)
    ensures m.pegs.Some? ==> table == m.pegs.value
    ensures m.pegs.None? ==> table == []
  {
    if m.pegs.Some? then m.pegs.value else []
  }

  /** The first index at or after i holding tok. */
  function FindFrom(table: seq<string>, tok: string, i: nat): (r: Option<nat>)
    requires i <= |table|
    ensures r.Some? <==> exists j :: i <= j < |table| && table[j] == tok
    ensures r.Some? ==> i <= r.value < |table| && table[r.value] == tok
                        && forall j :: i <= j < r.value ==> table[j] != tok
    decreases |table| - i
  {
    if i == |table| then None
    else if table[i] == tok then Some(i)
    else FindFrom(table, tok, i + 1)
  }

  /** The index of the first peg named tok, if any. */
  function FindPeg(table: seq<string>, tok: string): (r: Option<nat>)
    ensures r.Some? <==> tok in table
    ensures r.Some? ==> r.value < |table| && table[r.value] == tok
                        && forall j :: 0 <= j < r.value ==> table[j] != tok
  {
    FindFrom(table, tok, 0)
  }

  /** The position of the first token at or after `from` that the table does not hold, or |toks|. */
  function FirstMissing(table: seq<string>, toks: seq<string>, from: nat): (n: nat)
    requires from <= |toks|
    ensures from <= n <= |toks|
    ensures forall u :: from <= u < n ==> toks[u] in table
    ensures n < |toks| ==> toks[n] !in table
    decreases |toks| - from
  {
    if from == |toks| || toks[from] !in table then from else FirstMissing(table, toks, from + 1)
  }

  /** The peg indices recorded for the first n tokens, all known to the table. */
  function Selected(table: seq<string>, toks: seq<string>, n: nat): (sel: seq<nat>)
    requires n <= |toks| && forall u :: 0 <= u < n ==> toks[u] in table
    ensures |sel| == n
    ensures forall u :: 0 <= u < n ==>
      sel[u] < |table| && table[sel[u]] == toks[u] && forall j :: 0 <= j < sel[u] ==> table[j] != toks[u]
  {
    seq(n, u requires 0 <= u < n && toks[u] in table => FindPeg(table, toks[u]).value)
  }

  function Range(n: nat): (r: seq<nat>)
    ensures |r| == n && forall i :: 0 <= i < n ==> r[i] == i
  {
    seq(n, i requires 0 <= i < n => i)
  }

  /** Every index of a module's peg table, ascending. */
  function AllPegs(m: Module): (r: seq<nat>)
    ensures |r| == |PegTable(m)| && forall i :: 0 <= i < |r| ==> r[i] == i
  {
    Range(|PegTable(m)|)
  }

  /**
   * add_module with its null-table case read as an empty table. A null
   * module is refused and changes nothing. Otherwise the module and one
   * index list are appended before any token is looked at, so both stay
   * even when it fails; each token appends the index of the first peg of
   * that name, in token order, up to the first unknown token, which makes
   * it return false; no tokens and a table select every peg.
   */
  function AddModule(config: PerfConfig, mod: Option<Module>, toks: seq<string>): (r: Added)
    ensures mod.None? ==> r == Added(false, config)
    ensures mod.Some? && mod.value.pegs.None? && toks != [] ==>
              !r.ok && r.config.modules == config.modules + [mod.value]
  {
    if mod.None? then Added(false, config)
    else
      var m := mod.value;
      var table := PegTable(m);
      var n := FirstMissing(table, toks, 0);
      var sel := if toks == [] && m.pegs.Some? then Range(|table|) else Selected(table, toks, n);
      Added(n == |toks|, config.(modules := config.modules + [m], modPegIdxs := config.modPegIdxs + [sel]))
  }

  /** What add_module promises, as described above AddModule. */
  lemma AddModuleEffects(config: PerfConfig, mod: Option<Module>, toks: seq<string>)
    ensures var r := AddModule(config, mod, toks);
      && (mod.None? ==> r == Added(false, config))
      && (mod.Some? ==>
            && r.config.modules == config.modules + [mod.value]
            && |r.config.modPegIdxs| == |config.modPegIdxs| + 1
            && r.config.modPegIdxs[..|config.modPegIdxs|] == config.modPegIdxs
            && r.config.(modules := config.modules, modPegIdxs := config.modPegIdxs) == config)
      && (mod.Some? ==> (r.ok <==> forall u :: 0 <= u < |toks| ==> toks[u] in PegTable(mod.value)))
  {
  }

  /**
   * The index list add_module records for a non-empty peg list: for each
   * token up to the first unknown one, the index of the first peg so named.
   */
  lemma AddModuleIndices(config: PerfConfig, m: Module, toks: seq<string>)
    requires toks != []
    ensures var r := AddModule(config, Some(m), toks);
            var table := PegTable(m);
            var sel := r.config.modPegIdxs[|config.modPegIdxs|];
            && |sel| <= |toks|
            && (r.ok <==> |sel| == |toks|)
            && (!r.ok ==> toks[|sel|] !in table)
            && forall u :: 0 <= u < |sel| ==>
                 sel[u] < |table| && table[sel[u]] == toks[u] && forall j :: 0 <= j < sel[u] ==> table[j] != toks[u]
  {
  }

  /** An empty peg list selects every peg of the module, and succeeds. */
  lemma AddModuleAllPegs(config: PerfConfig, m: Module)
    ensures var r := AddModule(config, Some(m), []);
            && r.ok
            && r.config == config.(modules := config.modules + [m], modPegIdxs := config.modPegIdxs + [AllPegs(m)])
  {
  }

  /**
   * add_module as written: a null peg table with at least one token is read
   * through the null pointer (None here).
   */
  function AddModuleAsWritten(config: PerfConfig, mod: Option<Module>, toks: seq<string>): (r: Option<Added>)
    ensures r.None? <==> mod.Some? && mod.value.pegs.None? && toks != []
    ensures r.Some? ==> r.value == AddModule(config, mod, toks)
  {
    if mod.Some? && mod.value.pegs.None? && toks != [] then None
    else Some(AddModule(config, mod, toks))
  }

  /** A module without pegs asked for a peg: as written a null read, corrected a refusal. */
  lemma NullPegTableRead()
    ensures var m := Module("stream", None);
            && AddModuleAsWritten(Zeroed, Some(m), ["flows"]) == None
            && AddModule(Zeroed, Some(m), ["flows"]).ok == false
            && AddModule(Zeroed, Some(m), ["flows"]).config.modules == [m]
  {
  }

  /** Every recorded index names a peg of its module, and the two lists stay parallel. */
  ghost predicate ConfigValid(c: PerfConfig) {
    && |c.modules| == |c.modPegIdxs|
    && forall j, x :: 0 <= j < |c.modPegIdxs| && 0 <= x < |c.modPegIdxs[j]| ==>
         c.modPegIdxs[j][x] < |PegTable(c.modules[j])|
  }

  lemma AddModuleKeepsValid(config: PerfConfig, mod: Option<Module>, toks: seq<string>)
    requires ConfigValid(config)
    ensures ConfigValid(AddModule(config, mod, toks).config)
  {
    if mod.Some? {
      var r := AddModule(config, mod, toks).config;
      var n := |config.modPegIdxs|;
      forall j, x | 0 <= j < |r.modPegIdxs| && 0 <= x < |r.modPegIdxs[j]|
        ensures r.modPegIdxs[j][x] < |PegTable(r.modules[j])|
      {
        AddModuleEffects(config, mod, toks);
        if j < n {
          assert r.modPegIdxs[j] == r.modPegIdxs[..n][j];
          assert r.modules[j] == config.modules[j];
        } else {
          assert r.modules[j] == mod.value;
        }
      }
    }
  }

  // ----- end -----

  /**
   * get_module: the first registered module with that name; None when none
   * is registered under it.
   */
  function Lookup(registry: seq<Option<Module>>, name: string): (r: Option<Module>)
    ensures r.None? <==> forall j :: 0 <= j < |registry| ==> registry[j].None? || registry[j].value.name != name
    ensures r.Some? ==> r.value.name == name
    ensures r.Some? ==> exists j :: 0 <= j < |registry| && registry[j] == r && NoneNamedBefore(registry, name, j)
    decreases |registry|
  {
    if registry == [] then None
    else if registry[0].Some? && registry[0].value.name == name then registry[0]
    else
      var r := Lookup(registry[1..], name);
      assert forall j :: 0 < j < |registry| ==> registry[j] == registry[1..][j - 1];
      if r.Some? then
        var j :| 0 <= j < |registry| - 1 && registry[1..][j] == r && NoneNamedBefore(registry[1..], name, j);
        assert registry[j + 1] == r && NoneNamedBefore(registry, name, j + 1);
        r
      else r
  }

  /** No registered module before position j carries the name. */
  predicate NoneNamedBefore(registry: seq<Option<Module>>, name: string, j: nat)
    requires j <= |registry|
  {
    forall i :: 0 <= i < j ==> registry[i].None? || registry[i].value.name != name
  }

  /** The loop of end over get_all_modules from position j, stopping at the first refused module. */
  function AddAllFrom(config: PerfConfig, registry: seq<Option<Module>>, j: nat): (r: Added)
    requires j <= |registry|
    ensures |config.modules| <= |r.config.modules| && r.config.modules[..|config.modules|] == config.modules
    decreases |registry| - j
  {
    if j == |registry| then Added(true, config)
    else
      var a := AddModule(config, registry[j], []);
      if !a.ok then a else AddAllFrom(a.config, registry, j + 1)
  }

  /** The loop succeeds exactly when no entry from position j on is null. */
  lemma {:induction false} AddAllFromOk(config: PerfConfig, registry: seq<Option<Module>>, j: nat)
    requires j <= |registry|
    ensures AddAllFrom(config, registry, j).ok <==> forall i :: j <= i < |registry| ==> registry[i].Some?
    decreases |registry| - j
  {
    if j < |registry| && registry[j].Some? {
      AddModuleAllPegs(config, registry[j].value);
      AddAllFromOk(AddModule(config, registry[j], []).config, registry, j + 1);
    }
  }

  /** The modules of the registry from position j on, all present. */
  function PresentFrom(registry: seq<Option<Module>>, j: nat): (ms: seq<Module>)
    requires j <= |registry| && forall i :: j <= i < |registry| ==> registry[i].Some?
    ensures |ms| == |registry| - j
    decreases |registry| - j
  {
    if j == |registry| then [] else [registry[j].value] + PresentFrom(registry, j + 1)
  }

  /** The index lists of a run of modules each added with all its pegs. */
  function PegLists(ms: seq<Module>): (r: seq<seq<nat>>)
    ensures |r| == |ms|
  {
    if ms == [] then [] else [AllPegs(ms[0])] + PegLists(ms[1..])
  }

  lemma {:induction false} PegListsAt(ms: seq<Module>, i: nat)
    requires i < |ms|
    ensures PegLists(ms)[i] == AllPegs(ms[i])
  {
    if i > 0 {
      PegListsAt(ms[1..], i - 1);
    }
  }

  /** One step of the loop of end on a present module. */
  lemma AddAllStep(config: PerfConfig, registry: seq<Option<Module>>, j: nat)
    requires j < |registry| && registry[j].Some?
    ensures var m := registry[j].value;
            AddAllFrom(config, registry, j)
              == AddAllFrom(config.(modules := config.modules + [m], modPegIdxs := config.modPegIdxs + [AllPegs(m)]), registry, j + 1)
  {
    AddModuleAllPegs(config, registry[j].value);
  }

  lemma PegListsCons(m: Module, rest: seq<Module>)
    ensures PegLists([m] + rest) == [AllPegs(m)] + PegLists(rest)
  {
    assert ([m] + rest)[1..] == rest;
  }

  /** Appending one module and then a run of modules appends the whole run. */
  lemma AppendRun(config: PerfConfig, c: PerfConfig, r: PerfConfig, m: Module, rest: seq<Module>)
    requires c == config.(modules := config.modules + [m], modPegIdxs := config.modPegIdxs + [AllPegs(m)])
    requires r == c.(modules := c.modules + rest, modPegIdxs := c.modPegIdxs + PegLists(rest))
    ensures r == config.(modules := config.modules + ([m] + rest), modPegIdxs := config.modPegIdxs + PegLists([m] + rest))
  {
    PegListsCons(m, rest);
    assert config.modules + [m] + rest == config.modules + ([m] + rest);
    assert config.modPegIdxs + [AllPegs(m)] + PegLists(rest) == config.modPegIdxs + ([AllPegs(m)] + PegLists(rest));
  }

  /**
   * With no null entry, the loop appends every module from position j in
   * order, each with all of its pegs, and changes nothing else.
   */
  lemma {:induction false} AddAllAppends(config: PerfConfig, registry: seq<Option<Module>>, j: nat)
    requires j <= |registry|
    requires forall i :: 0 <= i < |registry| ==> registry[i].Some?
    ensures var ms := PresentFrom(registry, j);
            AddAllFrom(config, registry, j).config
              == config.(modules := config.modules + ms, modPegIdxs := config.modPegIdxs + PegLists(ms))
    decreases |registry| - j
  {
    if j < |registry| {
      var m := registry[j].value;
      var c := config.(modules := config.modules + [m], modPegIdxs := config.modPegIdxs + [AllPegs(m)]);
      AddAllStep(config, registry, j);
      AddAllAppends(c, registry, j + 1);
      AppendRun(config, c, AddAllFrom(c, registry, j + 1).config, m, PresentFrom(registry, j + 1));
    } else {
      assert config.modules + [] == config.modules;
      assert config.modPegIdxs + [] == config.modPegIdxs;
    }
  }

  /**
   * PerfMonModule::end. Closing the perf_monitor block (idx 0) with no
   * module configured adds every registered module with all its pegs;
   * closing a modules entry with a name adds the named module with the
   * pending pegs; every other end succeeds and changes nothing.
   */
  function End(st: PerfState, fqn: string, idx: int, registry: seq<Option<Module>>): (r: Added)
    ensures idx == 0 && st.config.modules != [] ==> r == Added(true, st.config)
    ensures idx == 0 && st.config.modules == [] ==>
      (r.ok <==> forall i :: 0 <= i < |registry| ==> registry[i].Some?)
    ensures idx != 0 && fqn == ModulesBlock && st.modName != "" ==>
      r == AddModule(st.config, Lookup(registry, st.modName), Tokens(st.modPegs))
    ensures idx != 0 && !(fqn == ModulesBlock && st.modName != "") ==> r == Added(true, st.config)
  {
    if idx == 0 then
      if st.config.modules == [] then
        AddAllFromOk(st.config, registry, 0);
        AddAllFrom(st.config, registry, 0)
      else Added(true, st.config)
    else if fqn == ModulesBlock && |st.modName| > 0 then
      AddModule(st.config, Lookup(registry, st.modName), Tokens(st.modPegs))
    else Added(true, st.config)
  }

  /** The loop of end keeps every recorded index within its module's peg table. */
  lemma {:induction false} AddAllKeepsValid(config: PerfConfig, registry: seq<Option<Module>>, j: nat)
    requires j <= |registry| && ConfigValid(config)
    ensures ConfigValid(AddAllFrom(config, registry, j).config)
    decreases |registry| - j
  {
    if j < |registry| {
      AddModuleKeepsValid(config, registry[j], []);
      AddAllKeepsValid(AddModule(config, registry[j], []).config, registry, j + 1);
    }
  }

  /**
   * Over a whole configuration session the record stays valid: begin
   * produces a valid record, and set and end keep it valid.
   */
  lemma SessionKeepsValid(st: PerfState, v: Value, rolloverThresh: int, fqn: string, idx: int,
                          registry: seq<Option<Module>>)
    requires ConfigValid(st.config)
    ensures ConfigValid(Begin(st, fqn).config)
    ensures ConfigValid(Set(st, v, rolloverThresh).state.config)
    ensures ConfigValid(End(st, fqn, idx, registry).config)
  {
    if v.name in OptionNames && RecordOption(OptionNames[v.name]) {
      SetRecordEffects(st.config, OptionNames[v.name], v, rolloverThresh);
    }
    if idx == 0 && st.config.modules == [] {
      AddAllKeepsValid(st.config, registry, 0);
    } else if idx != 0 && fqn == ModulesBlock && st.modName != "" {
      AddModuleKeepsValid(st.config, Lookup(registry, st.modName), Tokens(st.modPegs));
    }
  }

  /** Closing the block with nothing configured monitors every registered module, with all its pegs. */
  lemma EndMonitorsAll(st: PerfState, registry: seq<Option<Module>>)
    requires st.config.modules == [] && st.config.modPegIdxs == []
    requires forall i :: 0 <= i < |registry| ==> registry[i].Some?
    ensures var r := End(st, "perf_monitor", 0, registry);
            var ms := PresentFrom(registry, 0);
            && r.ok
            && r.config.modules == ms
            && r.config.modPegIdxs == PegLists(ms)
            && ConfigValid(r.config)
  {
    AddAllAppends(st.config, registry, 0);
    var ms := PresentFrom(registry, 0);
    forall i | 0 <= i < |ms|
      ensures PegLists(ms)[i] == AllPegs(ms[i])
    {
      PegListsAt(ms, i);
    }
  }

  /** A modules entry naming an unregistered module fails and changes nothing. */
  lemma EndUnknownModule(st: PerfState, registry: seq<Option<Module>>, idx: int)
    requires idx != 0 && st.modName != ""
    requires forall j :: 0 <= j < |registry| ==> registry[j].None? || registry[j].value.name != st.modName
    ensures End(st, ModulesBlock, idx, registry) == Added(false, st.config)
  {
  }

  // ----- the module object -----

  /** PerfMonModule: the record being configured and the pending module entry. */
  class PerfMonModule {
    var config: PerfConfig
    var modName: string
    var modPegs: string
    /** ROLLOVER_THRESH, subtracted from max_file_size. */
    const rolloverThresh: int

    function State(): PerfState
      reads this
    {
      PerfState(config, modName, modPegs)
    }

    constructor (rolloverThresh: int)
      ensures this.rolloverThresh == rolloverThresh
      ensures config == Zeroed && modName == "" && modPegs == ""
    {
      this.rolloverThresh := rolloverThresh;
      config := Zeroed;
      modName := "";
      modPegs := "";
    }

    /** set: the option's name picks the branch; an unknown name is refused. */
    method SetValue(v: Value) returns (ok: bool)
      modifies this
      ensures ok == Set(old(State()), v, rolloverThresh).ok
      ensures State() == Set(old(State()), v, rolloverThresh).state
    {
      if v.name !in OptionNames {
        return false;
      }
      var o := OptionNames[v.name];
      if o == NameOpt {
        modName := v.text;
      } else if o == PegsOpt {
        modPegs := v.text;
      } else {
        SetOption(o, v);
      }
      return true;
    }

    /** The branches of set that store a value in the record. */
    method SetOption(o: Opt, v: Value)
      requires RecordOption(o)
      modifies this
      ensures config == SetRecord(old(config), o, v, rolloverThresh)
      ensures modName == old(modName) && modPegs == old(modPegs)
    {
      match o
      case Packets =>
        config := config.(pktCnt := v.num);
      case Seconds =>
        config := config.(sampleInterval := v.num);
        if config.sampleInterval == 0 {
          config := config.(perfFlags := config.perfFlags + {Summary});
          config := config.(perfFlags := config.perfFlags - {TimeCount});
        }
      case FlowIpMemcap =>
        config := config.(flowipMemcap := v.num);
      case MaxFileSize =>
        config := config.(maxFileSize := v.num - rolloverThresh);
      case FlowPorts =>
        config := config.(flowMaxPortToTrack := v.num);
      case Reset =>
        config := config.(baseReset := v.flag);
      case MaxOpt =>
        if v.flag {
          config := config.(perfFlags := config.perfFlags + {MaxBaseStats});
        }
      case ConsoleOpt =>
        if v.flag {
          config := config.(perfFlags := config.perfFlags + {Console});
        }
      case EventsOpt =>
        if v.flag {
          config := config.(perfFlags := config.perfFlags + {Event});
        }
      case FileOpt =>
        config := config.(file := v.flag);
      case FlowOpt =>
        if v.flag {
          config := config.(perfFlags := config.perfFlags + {Flow});
        }
      case FlowFileOpt =>
        if v.flag {
          config := config.(perfFlags := config.perfFlags + {Flow});
          config := config.(flowFile := true);
        }
      case FlowIpOpt =>
        if v.flag {
          config := config.(perfFlags := config.perfFlags + {FlowIp});
        }
      case FlowIpFileOpt =>
        if v.flag {
          config := config.(perfFlags := config.perfFlags + {FlowIp});
          config := config.(flowipFile := true);
        }
    }

    method BeginBlock(fqn: string) returns (ok: bool)
      modifies this
      ensures ok
      ensures State() == Begin(old(State()), fqn)
    {
      if fqn == ModulesBlock {
        modName := "";
        modPegs := "";
      } else {
        config := Zeroed;
        config := config.(perfFlags := config.perfFlags + {Base, TimeCount});
      }
      ok := true;
    }

    /** add_module on this record, with the null-table case corrected. */
    method AddModuleTo(mod: Option<Module>, pegs: string) returns (ok: bool)
      modifies this
      ensures ok == AddModule(old(config), mod, Tokens(pegs)).ok
      ensures config == AddModule(old(config), mod, Tokens(pegs)).config
      ensures modName == old(modName) && modPegs == old(modPegs)
    {
      if mod.None? {
        return false;
      }
      var m := mod.value;
      config := config.(modules := config.modules + [m]);
      config := config.(modPegIdxs := config.modPegIdxs + [[]]);
      var back := |config.modPegIdxs| - 1;
      var table := PegTable(m);
      var toks := Tokens(pegs);
      var sel;
      sel, ok := SelectPegs(table, toks);
      if |toks| == 0 && m.pegs.Some? {
        sel := EveryPeg(|table|);
      }
      config := config.(modPegIdxs := config.modPegIdxs[back := sel]);
    }

    /**
     * The token loop of add_module: the index of the first peg named by
     * each token, stopping at the first token the table does not hold.
     */
    method SelectPegs(table: seq<string>, toks: seq<string>) returns (sel: seq<nat>, ok: bool)
      ensures ok <==> FirstMissing(table, toks, 0) == |toks|
      ensures sel == Selected(table, toks, FirstMissing(table, toks, 0))
    {
      sel := [];
      var t := 0;
      while t < |toks|
        invariant t <= |toks|
        invariant forall u :: 0 <= u < t ==> toks[u] in table
        invariant FirstMissing(table, toks, t) == FirstMissing(table, toks, 0)
        invariant sel == Selected(table, toks, t)
      {
        var found, i := SearchPeg(table, toks[t]);
        if !found {
          return sel, false;
        }
        sel := sel + [i];
        assert Selected(table, toks, t + 1) == Selected(table, toks, t) + [i];
        t := t + 1;
      }
      return sel, true;
    }

    /** The loop of add_module over a whole peg table: every index, ascending. */
    method EveryPeg(n: nat) returns (sel: seq<nat>)
      ensures sel == Range(n)
    {
      sel := [];
      var i := 0;
      while i < n
        invariant i <= n
        invariant sel == Range(i)
      {
        sel := sel + [i];
        assert Range(i + 1) == Range(i) + [i];
        i := i + 1;
      }
    }

    /** The scan of add_module's inner loop: the first peg named tok. */
    method SearchPeg(table: seq<string>, tok: string) returns (found: bool, i: nat)
      ensures found <==> tok in table
      ensures found ==> FindPeg(table, tok) == Some(i)
    {
      i := 0;
      while i < |table|
        invariant i <= |table|
        invariant forall j :: 0 <= j < i ==> table[j] != tok
      {
        if table[i] == tok {
          return true, i;
        }
        i := i + 1;
      }
      return false, i;
    }

    method EndBlock(fqn: string, idx: int, registry: seq<Option<Module>>) returns (ok: bool)
      modifies this
      ensures ok == End(old(State()), fqn, idx, registry).ok
      ensures config == End(old(State()), fqn, idx, registry).config
      ensures modName == old(modName) && modPegs == old(modPegs)
    {
      if idx == 0 {
        if |config.modules| == 0 {
          var j := 0;
          while j < |registry|
            invariant j <= |registry|
            invariant AddAllFrom(config, registry, j) == AddAllFrom(old(config), registry, 0)
            invariant modName == old(modName) && modPegs == old(modPegs)
          {
            var added := AddModuleTo(registry[j], "");
            if !added {
              return false;
            }
            j := j + 1;
          }
        }
        return true;
      }
      if fqn == ModulesBlock && |modName| > 0 {
        ok := AddModuleTo(Lookup(registry, modName), modPegs);
        return;
      }
      return true;
    }

    /** get_config: hands the record out and leaves it zeroed. */
    method GetConfig() returns (cfg: PerfConfig)
      modifies this
      ensures cfg == old(config) && config == Zeroed
      ensures modName == old(modName) && modPegs == old(modPegs)
    {
      cfg := config;
      config := Zeroed;
    }
  }
}
