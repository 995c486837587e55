/**
 * The five fact collectors of asa_facts.py (`Default`, `Hardware`, `Interfaces`,
 * `Config`, `Failover`): the commands each sends, the facts each records, and
 * `populate`, which writes those facts into the collector's own `facts` dict.
 */
module Collectors {
  import opened Wrappers
  import opened Errors
  import opened Patterns
  import opened Device
  import opened Subsets
  import InterfaceParser
  import Lines

  // ---------------------------------------------------------------------------
  // Commands, as the source writes them.

  /** The COMMANDS of each collector; `Config` keeps the empty list of `FactsBase`. */
  function Commands(subset: string): (c: seq<string>)
    ensures c != [] <==> subset in {"default", "failover", "hardware", "interfaces"}
  {
    if subset == "default" then ["show version", "show asdm image"]
    else if subset == "failover" then ["show failover"]
    else if subset == "hardware" then ["dir"]
    else if subset == "interfaces" then ["show interface", "show ipv6 interface brief"]
    else []
  }

  // ---------------------------------------------------------------------------
  // The facts each collector records.

  /** Every key a collector can record. */
  function DeclaredKeys(subset: string): set<string> {
    if subset == "default" then
      {"version", "hostname", "model", "image", "serialnum", "asdm_version", "asdm_image",
       "stacked_models", "stacked_serialnums"}
    else if subset == "failover" then
      {"failover", "failover_role", "failover_state", "failover_partner_role", "failover_partner_state"}
    else if subset == "hardware" then {"filesystems"}
    else if subset == "config" then {"boot_images_configured", "asdm_image_configured"}
    else if subset == "interfaces" then {"interfaces"}
    else {}
  }

  /** The keys a collector records whenever its first response is not empty. */
  function AlwaysKeys(subset: string): set<string> {
    if subset == "default" then
      {"version", "hostname", "model", "image", "serialnum", "asdm_version", "asdm_image"}
    else if subset == "failover" then {"failover"}
    else DeclaredKeys(subset)
  }

  /** `parse_stacks`: each list is recorded only when it has at least one element. */
  function StackFacts(re: Regex, data: string): (facts: map<string, Value>)
    ensures facts.Keys <= {"stacked_models", "stacked_serialnums"}
    ensures "stacked_models" in facts <==> re.findall(StackedModels, data) != []
    ensures "stacked_serialnums" in facts <==> re.findall(StackedSerialnums, data) != []
  {
    var models := re.findall(StackedModels, data);
    var serials := re.findall(StackedSerialnums, data);
    (if models != [] then map["stacked_models" := StrList(models)] else map[]) +
    (if serials != [] then map["stacked_serialnums" := StrList(serials)] else map[])
  }

  /** `Default.populate` with a non-empty 'show version' text and the 'show asdm image' text. */
  function DefaultFacts(re: Regex, version: string, asdm: string): (facts: map<string, Value>)
    ensures AlwaysKeys("default") <= facts.Keys <= DeclaredKeys("default")
  {
    map[
      "version" := OrNull(Capture(re, Version, version, 1)),
      "hostname" := OrNull(Capture(re, Hostname, version, 1)),
      "model" := OrNull(Capture(re, Model, version, 1)),
      "image" := OrNull(Capture(re, Image, version, 1)),
      "serialnum" := OrNull(Capture(re, Serialnum, version, 1)),
      "asdm_version" := OrNull(Capture(re, AsdmVersion, version, 1)),
      "asdm_image" := OrNull(Capture(re, AsdmImage, asdm, 1))
    ] + StackFacts(re, version)
  }

  /** The role and the stripped state of one host line of 'show failover', under the given keys. */
  function HostFacts(re: Regex, p: Pattern, data: string, roleKey: string, stateKey: string): (facts: map<string, Value>)
    requires roleKey != stateKey
    ensures re.search(p, data).None? ==> facts == map[]
    ensures re.search(p, data).Some? ==> facts.Keys == {roleKey, stateKey}
    ensures re.search(p, data).Some? ==> facts[roleKey] == OrNull(Capture(re, p, data, 1))
    ensures Capture(re, p, data, 2).Some? ==> facts[stateKey] == Str(Strip(Capture(re, p, data, 2).value))
    ensures re.search(p, data).Some? && Capture(re, p, data, 2).None? ==> facts[stateKey] == Null
  {
    var m := re.search(p, data);
    if m.None? then map[]
    else
      var state := match Group(m, 2) case Some(s) => Str(Strip(s)) case None => Null;
      map[roleKey := OrNull(Group(m, 1)), stateKey := state]
  }

  /** `Failover.populate` with a non-empty 'show failover' text. */
  function FailoverFacts(re: Regex, data: string): (facts: map<string, Value>)
    ensures AlwaysKeys("failover") <= facts.Keys <= DeclaredKeys("failover")
  {
    map["failover" := Bool(re.search(FailoverOn, data).Some?)]
    + HostFacts(re, ThisHost, data, "failover_role", "failover_state")
    + HostFacts(re, OtherHost, data, "failover_partner_role", "failover_partner_state")
  }

  /** `Config.populate` with a non-empty running configuration. */
  function ConfigFacts(re: Regex, config: string): (facts: map<string, Value>)
    ensures facts.Keys == DeclaredKeys("config")
  {
    var boot := re.findall(BootImages, config);
    map[
      "boot_images_configured" := if boot != [] then StrList(boot) else Null,
      "asdm_image_configured" := OrNull(Capture(re, ConfiguredAsdmImage, config, 1))
    ]
  }

  /** `Interfaces.populate` with a non-empty 'show interface' text. */
  function InterfacesFacts(d: Device, data: string): (r: Result<map<string, Value>, Error>)
    ensures r.Success? <==> InterfaceParser.NoOrphanLines(d.interfaceHeader, Lines.Split(data))
    ensures r.Success? ==> r.value.Keys == DeclaredKeys("interfaces")
    ensures r.Success? ==>
      && InterfaceParser.Run(d.interfaceHeader, Lines.Split(data)).Success?
      && r.value["interfaces"]
         == Dict(InterfaceParser.InterfaceTable(d.re, InterfaceParser.Run(d.interfaceHeader, Lines.Split(data)).value.parsed))
    ensures r.Failure? ==> r.error == KeyError("")
  {
    var lines := Lines.Split(data);
    InterfaceParser.OnlyEmptyKeyMissing(d.interfaceHeader, lines);
    InterfaceParser.SucceedsWithoutOrphans(d.interfaceHeader, lines);
    assert DeclaredKeys("interfaces") == {"interfaces"};
    var run := InterfaceParser.Run(d.interfaceHeader, lines);
    if run.Failure? then Failure(run.error)
    else Success(map["interfaces" := Dict(InterfaceParser.InterfaceTable(d.re, run.value.parsed))])
  }

  /**
   * The text whose emptiness decides whether a collector records anything: the running
   * configuration for `Config`, the answer to the first command for every other one.
   */
  function Guard(subset: string, d: Device): (g: string)
    ensures subset == "config" ==> g == d.runningConfig
    ensures subset != "config" && Commands(subset) != [] ==> g == RunCommands(d, Commands(subset))[0]
  {
    if subset == "config" then d.runningConfig
    else if Commands(subset) == [] then ""
    else d.run(Commands(subset)[0])
  }

  /**
   * The facts a collector records when the text it inspects is `data` and not empty, or
   * the error it raises: every key it always records and no key it does not declare.
   * Only the interface parser can raise.
   */
  function CollectFrom(subset: string, d: Device, data: string): (r: Result<map<string, Value>, Error>)
    requires subset in ValidSubsets
    ensures r.Success? ==> AlwaysKeys(subset) <= r.value.Keys <= DeclaredKeys(subset)
    ensures r.Failure? ==> subset == "interfaces" && r.error == KeyError("")
  {
    if subset == "default" then
      Success(DefaultFacts(d.re, data, d.run(Commands(subset)[1])))
    else if subset == "failover" then
      Success(FailoverFacts(d.re, data))
    else if subset == "hardware" then
      Success(map["filesystems" := StrList(d.re.findall(Filesystems, data))])
    else if subset == "config" then
      Success(ConfigFacts(d.re, data))
    else
      InterfacesFacts(d, data)
  }

  /**
   * The facts a collector records in one `populate`, or the error it raises: nothing
   * when the text it inspects is empty, otherwise what `CollectFrom` records.
   */
  function Collect(subset: string, d: Device): (r: Result<map<string, Value>, Error>)
    requires subset in ValidSubsets
    ensures Guard(subset, d) == "" ==> r == Success(map[])
    ensures r.Success? ==> r.value.Keys <= DeclaredKeys(subset)
    ensures r.Success? && Guard(subset, d) != "" ==> AlwaysKeys(subset) <= r.value.Keys
    ensures r.Failure? ==> subset == "interfaces" && r.error == KeyError("")
  {
    var data := Guard(subset, d);
    if data == "" then Success(map[]) else CollectFrom(subset, d, data)
  }

  /** No two collectors declare a common key. */
  lemma DeclaredKeysDisjoint(a: string, b: string)
    requires a in ValidSubsets && b in ValidSubsets && a != b
    ensures DeclaredKeys(a) !! DeclaredKeys(b)
  {
    match a
    case "default" =>
    case "failover" =>
    case "hardware" =>
    case "config" =>
    case "interfaces" =>
  }

  /** No collector declares the key `main` reserves for the resolved subsets. */
  lemma GatherSubsetUndeclared(s: string)
    requires s in ValidSubsets
    ensures "gather_subset" !in DeclaredKeys(s)
  {
  }

  // ---------------------------------------------------------------------------
  // The collector objects.

  /** Updating an empty dict copies the other one. */
  lemma UpdateEmpty(m: map<string, Value>)
    ensures map[] + m == m
  {
  }

  /** The seven writes of `Default.populate` followed by `parse_stacks` update the dict with `DefaultFacts`. */
  lemma DefaultWrites(m: map<string, Value>, version: Value, hostname: Value, model: Value, image: Value, serialnum: Value, asdmVersion: Value, asdmImage: Value, stacks: map<string, Value>)
    ensures m["version" := version]["hostname" := hostname]["model" := model]["image" := image]["serialnum" := serialnum]["asdm_version" := asdmVersion]["asdm_image" := asdmImage] + stacks
      == m + (map["version" := version, "hostname" := hostname, "model" := model, "image" := image, "serialnum" := serialnum, "asdm_version" := asdmVersion, "asdm_image" := asdmImage] + stacks)
  {
    var w: map<string, Value> := map[];
    assert m == m + w;
    UnionUpdate(m, w, "version", version);
    w := w["version" := version];
    UnionUpdate(m, w, "hostname", hostname);
    w := w["hostname" := hostname];
    UnionUpdate(m, w, "model", model);
    w := w["model" := model];
    UnionUpdate(m, w, "image", image);
    w := w["image" := image];
    UnionUpdate(m, w, "serialnum", serialnum);
    w := w["serialnum" := serialnum];
    UnionUpdate(m, w, "asdm_version", asdmVersion);
    w := w["asdm_version" := asdmVersion];
    UnionUpdate(m, w, "asdm_image", asdmImage);
    w := w["asdm_image" := asdmImage];
    UnionAssoc(m, w, stacks);
  }

  /** Writing one key is updating with a one-entry dict. */
  lemma WriteIsUpdate(m: map<string, Value>, k: string, v: Value)
    ensures m[k := v] == m + map[k := v]
  {
  }

  /** `dict.update` is associative. */
  lemma UnionAssoc(a: map<string, Value>, b: map<string, Value>, c: map<string, Value>)
    ensures (a + b) + c == a + (b + c)
  {
  }

  /** Writing one key after a batch of writes is the batch with that key written last. */
  lemma UnionUpdate(m: map<string, Value>, n: map<string, Value>, k: string, v: Value)
    ensures (m + n)[k := v] == m + n[k := v]
  {
  }

  /**
   * One instance of a FACT_SUBSETS class: `FactsBase` with the `populate` of the class
   * that `subset` names. `populate` records the command responses and writes facts into
   * `facts` one key at a time.
   */
  class Collector {
    /** The name under which FACT_SUBSETS lists this instance's class. */
    const subset: string
    /** `self.responses`: None until `populate` has sent the commands. */
    var responses: Option<seq<string>>
    /** `self.facts`. */
    var facts: map<string, Value>

    constructor(subset: string)
      requires subset in ValidSubsets
      ensures this.subset == subset && responses == None && facts == map[]
    {
      this.subset := subset;
      responses := None;
      facts := map[];
    }

    /**
     * `populate`: sends the class's commands, then, when the text it inspects is not
     * empty, adds the facts `Collect` describes. A parse error leaves `facts` as it was.
     */
    method Populate(d: Device) returns (outcome: Outcome<Error>)
      requires subset in ValidSubsets
      modifies this
      ensures responses == Some(RunCommands(d, Commands(subset)))
      ensures outcome.Pass? <==> Collect(subset, d).Success?
      ensures outcome.Pass? ==> facts == old(facts) + Collect(subset, d).value
      ensures outcome.Fail? ==> outcome.error == Collect(subset, d).error && facts == old(facts)
    {
      var commands := Commands(subset);
      responses := Some(RunCommands(d, commands));
      var data := if subset == "config" then d.runningConfig else responses.value[0];
      assert data == Guard(subset, d);
      if data == "" {
        return Pass;
      }
      outcome := Record(d, data);
    }

    /** What each class's `populate` does after `FactsBase.populate`, once `data` is not empty. */
    method Record(d: Device, data: string) returns (outcome: Outcome<Error>)
      requires subset in ValidSubsets
      requires responses == Some(RunCommands(d, Commands(subset)))
      modifies this`facts
      ensures outcome.Pass? <==> CollectFrom(subset, d, data).Success?
      ensures outcome.Pass? ==> facts == old(facts) + CollectFrom(subset, d, data).value
      ensures outcome.Fail? ==> outcome.error == CollectFrom(subset, d, data).error && facts == old(facts)
    {
      if subset == "default" {
        PopulateDefault(d.re, data, responses.value[1]);
      } else if subset == "failover" {
        PopulateFailover(d.re, data);
      } else if subset == "hardware" {
        PopulateHardware(d.re, data);
      } else if subset == "config" {
        PopulateConfig(d.re, data);
      } else {
        outcome := PopulateInterfaces(d, data);
        return;
      }
      return Pass;
    }

    /** The body of `Default.populate` once 'show version' answered with `version`. */
    method PopulateDefault(re: Regex, version: string, asdm: string)
      modifies this`facts
      ensures facts == old(facts) + DefaultFacts(re, version, asdm)
    {
      var versionFact := OrNull(Capture(re, Version, version, 1));
      var hostname := OrNull(Capture(re, Hostname, version, 1));
      var model := OrNull(Capture(re, Model, version, 1));
      var image := OrNull(Capture(re, Image, version, 1));
      var serialnum := OrNull(Capture(re, Serialnum, version, 1));
      var asdmVersion := OrNull(Capture(re, AsdmVersion, version, 1));
      var asdmImage := OrNull(Capture(re, AsdmImage, asdm, 1));
      facts := facts["version" := versionFact];
      facts := facts["hostname" := hostname];
      facts := facts["model" := model];
      facts := facts["image" := image];
      facts := facts["serialnum" := serialnum];
      facts := facts["asdm_version" := asdmVersion];
      facts := facts["asdm_image" := asdmImage];
      ParseStacks(re, version);
      DefaultWrites(old(facts), versionFact, hostname, model, image, serialnum, asdmVersion, asdmImage, StackFacts(re, version));
    }

    /** The body of `Failover.populate` once 'show failover' answered with `data`. */
    method PopulateFailover(re: Regex, data: string)
      modifies this`facts
      ensures facts == old(facts) + FailoverFacts(re, data)
    {
      var available := Bool(re.search(FailoverOn, data).Some?);
      facts := facts["failover" := available];
      WriteIsUpdate(old(facts), "failover", available);
      ghost var thisHost := HostFacts(re, ThisHost, data, "failover_role", "failover_state");
      ParseState(re, ThisHost, data, "failover_role", "failover_state");
      UnionAssoc(old(facts), map["failover" := available], thisHost);
      ghost var otherHost := HostFacts(re, OtherHost, data, "failover_partner_role", "failover_partner_state");
      ParseState(re, OtherHost, data, "failover_partner_role", "failover_partner_state");
      UnionAssoc(old(facts), map["failover" := available] + thisHost, otherHost);
    }

    /** The body of `Hardware.populate` once 'dir' answered with `data`. */
    method PopulateHardware(re: Regex, data: string)
      modifies this`facts
      ensures facts == old(facts) + map["filesystems" := StrList(re.findall(Filesystems, data))]
    {
      var filesystems := StrList(re.findall(Filesystems, data));
      facts := facts["filesystems" := filesystems];
      WriteIsUpdate(old(facts), "filesystems", filesystems);
    }

    /**
     * The body of `Interfaces.populate` once 'show interface' answered with `data`:
     * a parse error propagates and leaves `facts` as it was.
     */
    method PopulateInterfaces(d: Device, data: string) returns (outcome: Outcome<Error>)
      modifies this`facts
      ensures outcome.Pass? <==> InterfacesFacts(d, data).Success?
      ensures outcome.Pass? ==> facts == old(facts) + InterfacesFacts(d, data).value
      ensures outcome.Fail? ==> outcome.error == InterfacesFacts(d, data).error && facts == old(facts)
    {
      var interfaces := InterfaceParser.ParseInterfaces(d.interfaceHeader, data);
      if interfaces.Failure? {
        return Fail(interfaces.error);
      }
      var table := InterfaceParser.PopulateInterfaces(d.re, interfaces.value);
      facts := facts["interfaces" := Dict(table)];
      WriteIsUpdate(old(facts), "interfaces", Dict(table));
      return Pass;
    }

    /** The body of `Config.populate` once the running configuration is `config`. */
    method PopulateConfig(re: Regex, config: string)
      modifies this`facts
      ensures facts == old(facts) + ConfigFacts(re, config)
    {
      var boot := re.findall(BootImages, config);
      facts := facts["boot_images_configured" := if boot != [] then StrList(boot) else Null];
      facts := facts["asdm_image_configured" := OrNull(Capture(re, ConfiguredAsdmImage, config, 1))];
    }

    /** `parse_stacks`: records each list only when it is not empty. */
    method ParseStacks(re: Regex, data: string)
      modifies this`facts
      ensures facts == old(facts) + StackFacts(re, data)
    {
      var models := re.findall(StackedModels, data);
      if models != [] {
        facts := facts["stacked_models" := StrList(models)];
      }
      var serials := re.findall(StackedSerialnums, data);
      if serials != [] {
        facts := facts["stacked_serialnums" := StrList(serials)];
      }
    }

    /** One half of `parse_state`: the role and the stripped state of one host line, when it matches. */
    method ParseState(re: Regex, p: Pattern, data: string, roleKey: string, stateKey: string)
      requires roleKey != stateKey
      modifies this`facts
      ensures facts == old(facts) + HostFacts(re, p, data, roleKey, stateKey)
    {
      var m := re.search(p, data);
      if m.Some? {
        var role := OrNull(Group(m, 1));
        facts := facts[roleKey := role];
        WriteIsUpdate(old(facts), roleKey, role);
        var state := match Group(m, 2) case Some(s) => Str(Strip(s)) case None => Null;
        facts := facts[stateKey := state];
        UnionUpdate(old(facts), map[roleKey := role], stateKey, state);
        assert HostFacts(re, p, data, roleKey, stateKey) == map[roleKey := role, stateKey := state];
      } else {
        assert HostFacts(re, p, data, roleKey, stateKey) == map[];
      }
    }
  }
}
