# asa_facts in Dafny

A model of Ansible's `asa_facts` module (`lib/ansible/modules/network/asa/asa_facts.py`), which gathers facts from a Cisco ASA firewall and proves properties about how it does so. The model covers these steps:

- **Resolution.** The `gather_subset` option is a list of tokens: `all`, a collector name, or either of these after `!`. It is resolved into the set of collectors to run. The baseline collector `default` is always in that set, and a token that names nothing fails the run with 'Bad subset'. (`subsets.dfy`)
- **Collection.** Each of the five collectors (`Default`, `Failover`, `Hardware`, `Config`, `Interfaces`) sends its CLI commands. When the first answer is not empty, it writes the facts it parses into its own `facts` dict. `Config` inspects the running configuration instead. (`collectors.dfy`, with the regular expressions named in `patterns.dfy` and the device in `device.dfy`)
- **Interface parsing.** `parse_interfaces` cuts the 'show interface' text into one entry per interface header line. `populate_interfaces` turns each entry into an eight-field record. (`interfaces.dfy`, over `Lines.Split` in `lines.dfy`)
- **The run.** `main` seeds the result with 'gather_subset' and creates one collector per resolved name. It populates them in turn, merging each one's facts with `dict.update`. At the end it renames every key to `ansible_net_<key>`. (`facts.dfy`)

The code's state changes keep their imperative form:
- each collector is a `class Collector`, with `responses` and `facts` fields that its `populate` methods update in place;
- the resolution loop, the line loop of `parse_interfaces`, the record loop of `populate_interfaces`, the collector loops of `main` and the renaming loop are all methods with loop invariants.

Each method is proved against a specification function:

| method | specification |
|---|---|
| `ResolveSubsets` | `Resolve` |
| `ParseInterfaces` | `Run` |
| `PopulateInterfaces` | `InterfaceTable` |
| `Collector.Populate` | `Collect` |
| `PopulateAll` | `CollectAll` and `Merge` |
| `NamespaceFacts` | `Namespaced` |

Lemmas then state what the specification functions mean. Highlights:
- only which tokens occur matters, and an exclusion always wins over an inclusion;
- the interface parser fails exactly when an indented line precedes every header line, and otherwise it has one entry per header name, made of the header's remainder and its indented lines;
- the collectors' key sets are pairwise disjoint, so the merged result does not depend on the order in which Python iterates the set of resolved names;
- renaming is a bijection on keys.

Where the module's documentation and its code differ, the model follows the code:
- A bad token fails with the message 'Bad subset', which does not name the token (asa_facts.py:443-444). `Errors.BadSubset` therefore carries no token.
- The RETURN block calls the `default` facts "returned: always". The code records them only when 'show version' answers with non-empty text (asa_facts.py:186-187).
- The RETURN block says `boot_images_configured` and `asdm_image_configured` are returned "when configured". The code writes both keys whenever the running configuration is not empty, holding None when nothing matches (asa_facts.py:294-307).
- The RETURN block lists `ansible_net_config`. The line that would record it is commented out (asa_facts.py:295), so no collector records a `config` key.
- An indented line of 'show interface' text before the first interface header makes `parse_interfaces` raise `KeyError('')` (asa_facts.py:342-347). The model keeps this error as `KeyError("")`: it propagates out of `Interfaces.populate` and ends the run with no facts.

## Model

| member | source | states |
|---|---|---|
| Device.OrNull | lib/ansible/modules/network/asa/asa_facts.py:197-230 | a `parse_*` helper yields None exactly when its search captures nothing, and the capture itself otherwise |
| Device.RunCommands | lib/ansible/modules/network/asa/asa_facts.py:170-171 | one response per command, in command order, each the device's answer to that command |
| Device.Strip | lib/ansible/modules/network/asa/asa_facts.py:266-271 | `strip()` returns the slice of its input between a white-space prefix and a white-space suffix, and that slice is empty or neither starts nor ends with white space; so everything removed is white space |
| Device.StripUnique | lib/ansible/modules/network/asa/asa_facts.py:266-271 | the contract of `strip()` fixes its result: any slice cut as that contract describes is `Strip`'s result |
| Lines.Split | lib/ansible/modules/network/asa/asa_facts.py:343 | `data.split('\n')` yields at least one line, no line holds a break, and joining them with '\n' gives `data` back |
| Lines.SplitJoin | lib/ansible/modules/network/asa/asa_facts.py:343 | splitting undoes joining for every non-empty list of break-free lines |
| Subsets.Unnegated | lib/ansible/modules/network/asa/asa_facts.py:434-435 | a token starting with '!' is '!' followed by the result; any other token is returned unchanged |
| Subsets.Resolve | lib/ansible/modules/network/asa/asa_facts.py:426-455 | a resolved set always holds 'default' and only valid collector names; resolution fails, with 'Bad subset', exactly when some token names no collector after one '!' is removed |
| Subsets.ResolveSubsets | lib/ansible/modules/network/asa/asa_facts.py:426-455 | the resolution loop, which stops at the first bad token, computes `Resolve` of the whole token list |
| Subsets.ExclusionWins | lib/ansible/modules/network/asa/asa_facts.py:446-455 | a name other than 'default' that '!name' or '!all' excludes is never resolved, whatever the inclusions |
| Subsets.TokenOrderIrrelevant | lib/ansible/modules/network/asa/asa_facts.py:429-455 | two token lists with the same tokens resolve alike, regardless of order and repetition |
| Subsets.OnlyExclusions | lib/ansible/modules/network/asa/asa_facts.py:451-455 | with no bare token, every collector runs except the excluded ones, plus 'default' |
| Subsets.BadTokenFails | lib/ansible/modules/network/asa/asa_facts.py:443-444 | a single bad token anywhere in the list fails the whole resolution |
| Subsets.MalformedTokensFail | lib/ansible/modules/network/asa/asa_facts.py:434-444 | '', '!', '!!hardware' and a list holding 'bogus' all fail |
| Subsets.OneInclusion | lib/ansible/modules/network/asa/asa_facts.py:446-455 | one bare name runs that collector and 'default', nothing else |
| Subsets.OneExclusion | lib/ansible/modules/network/asa/asa_facts.py:434-455 | one '!name' runs every collector but that one, and always 'default' |
| Subsets.AllOutcome | lib/ansible/modules/network/asa/asa_facts.py:430-432 | 'all' runs all five collectors |
| Subsets.ConfigOutcome | lib/ansible/modules/network/asa/asa_facts.py:64-67 | 'config' runs the config and default collectors, as the example says |
| Subsets.NotHardwareOutcome | lib/ansible/modules/network/asa/asa_facts.py:68-71 | '!hardware' runs every collector but the hardware one, as the example says |
| Subsets.DefaultOptionOutcome | lib/ansible/modules/network/asa/asa_facts.py:414 | the default option '!config' runs default, hardware, interfaces and failover |
| Subsets.NotAllOutcome | lib/ansible/modules/network/asa/asa_facts.py:436-438 | '!all' runs only 'default' |
| Subsets.NotAllBesideName | lib/ansible/modules/network/asa/asa_facts.py:436-455 | '!all' beside a bare name still runs only 'default' |
| Subsets.AllButHardware | lib/ansible/modules/network/asa/asa_facts.py:429-455 | 'all' with '!hardware' runs every collector but hardware, in either order of the two tokens |
| InterfaceParser.Step | lib/ansible/modules/network/asa/asa_facts.py:344-352 | one turn of the loop: an empty line, or an unindented line the header regex rejects, changes nothing; an indented line raises `KeyError(key)` exactly when the current key has no entry, and otherwise appends itself after a newline to that entry and changes nothing else; a header line makes its name the key and sets its entry to the rest of the line |
| InterfaceParser.Run | lib/ansible/modules/network/asa/asa_facts.py:343-353 | the loop over the lines as a fold of `Step` from an empty key and an empty dict, stopping at the first error (no contract of its own: `RunDescribed`, `OnlyEmptyKeyMissing` and `FailureStops` state what it computes) |
| InterfaceParser.ParseInterfaces | lib/ansible/modules/network/asa/asa_facts.py:340-353 | the line loop fails exactly when `Run` over the split lines fails, with the same error, and otherwise returns `Run`'s `parsed` dict |
| InterfaceParser.FailureStops | lib/ansible/modules/network/asa/asa_facts.py:343-347 | once the loop has raised on some line, the lines after it do not change the outcome |
| InterfaceParser.OnlyEmptyKeyMissing | lib/ansible/modules/network/asa/asa_facts.py:342-351 | the loop's `key` is in `parsed` or still '', so the only error the loop can raise is `KeyError('')` |
| InterfaceParser.RunDescribed | lib/ansible/modules/network/asa/asa_facts.py:340-353 | parsing succeeds exactly when every indented line has a header line before it; then `parsed` has one entry per header name, equal to the rest of that name's last header line followed by each indented line up to the next header line, and the current key is the name on the last header line |
| InterfaceParser.InterfaceRecord | lib/ansible/modules/network/asa/asa_facts.py:355-395 | a record has exactly the eight fields; each field other than description holds the first group its own pattern captures in the entry, or None when it captures nothing; the description is never None and is 'not set' when absent |
| InterfaceParser.InterfaceTable | lib/ansible/modules/network/asa/asa_facts.py:324-338 | one record per parsed interface name and no other key; the record under each name is `InterfaceRecord` of that interface's parsed text |
| InterfaceParser.PopulateInterfaces | lib/ansible/modules/network/asa/asa_facts.py:324-338 | the loop over the parsed entries, in any order, builds exactly `InterfaceTable` |
| Collectors.Commands | lib/ansible/modules/network/asa/asa_facts.py:163-314 | the `COMMANDS` list of each class; exactly `Default`, `Failover`, `Hardware` and `Interfaces` send commands, and `Config` keeps the empty list of `FactsBase` |
| Collectors.Guard | lib/ansible/modules/network/asa/asa_facts.py:186-320 | the text each `populate` tests for emptiness: the running configuration for `Config`, and the first response to the class's commands for every other collector |
| Collectors.StackFacts | lib/ansible/modules/network/asa/asa_facts.py:232-239 | 'stacked_models' and 'stacked_serialnums' are each recorded exactly when their findall is not empty, and no other key is recorded |
| Collectors.DefaultFacts | lib/ansible/modules/network/asa/asa_facts.py:184-230 | the seven default keys are always recorded, and nothing outside the default collector's keys |
| Collectors.HostFacts | lib/ansible/modules/network/asa/asa_facts.py:260-271 | a host line that does not match records nothing; one that matches records exactly the role key, holding group 1 or None, and the state key, holding `Strip` of group 2 or None when that group captures nothing |
| Collectors.FailoverFacts | lib/ansible/modules/network/asa/asa_facts.py:247-271 | 'failover' is always recorded, and only failover keys |
| Collectors.ConfigFacts | lib/ansible/modules/network/asa/asa_facts.py:291-307 | both config keys are recorded, even when their values are None |
| Collectors.InterfacesFacts | lib/ansible/modules/network/asa/asa_facts.py:316-322 | succeeds exactly when no indented line of the text comes before every header line; on success only the 'interfaces' key is recorded, holding `InterfaceTable` of what the parser returns; a failure is `KeyError('')` |
| Collectors.CollectFrom | lib/ansible/modules/network/asa/asa_facts.py:177-395 | with a non-empty first answer, every collector records all its always-present keys and none it does not declare; only the interface collector can raise, with `KeyError('')` |
| Collectors.Collect | lib/ansible/modules/network/asa/asa_facts.py:170-322 | a collector whose inspected text is empty records nothing; otherwise it behaves as `CollectFrom` |
| Collectors.DeclaredKeysDisjoint | lib/ansible/modules/network/asa/asa_facts.py:177-395 | no two collectors can record a common key |
| Collectors.GatherSubsetUndeclared | lib/ansible/modules/network/asa/asa_facts.py:457-466 | no collector records the 'gather_subset' key that `main` writes first |
| Collectors.Collector.constructor | lib/ansible/modules/network/asa/asa_facts.py:165-168 | a new collector has no responses and empty facts |
| Collectors.Collector.Populate | lib/ansible/modules/network/asa/asa_facts.py:170-322 | `populate` stores the responses to the class's commands; the facts grow by exactly what `Collect` records, or stay unchanged on an error that it reports |
| Collectors.Collector.Record | lib/ansible/modules/network/asa/asa_facts.py:184-322 | each class's work after its guard grows the facts by exactly `CollectFrom`, or leaves them unchanged on error |
| Collectors.Collector.PopulateDefault | lib/ansible/modules/network/asa/asa_facts.py:184-195 | the seven writes and `parse_stacks` update the facts by `DefaultFacts` |
| Collectors.Collector.ParseStacks | lib/ansible/modules/network/asa/asa_facts.py:232-239 | the facts are updated by `StackFacts` and nothing else |
| Collectors.Collector.PopulateFailover | lib/ansible/modules/network/asa/asa_facts.py:247-258 | the availability write and both `parse_state` halves update the facts by `FailoverFacts` |
| Collectors.Collector.ParseState | lib/ansible/modules/network/asa/asa_facts.py:260-271 | one host line updates the facts by `HostFacts` |
| Collectors.Collector.PopulateHardware | lib/ansible/modules/network/asa/asa_facts.py:279-286 | 'filesystems' is written as the list of directory names and nothing else changes |
| Collectors.Collector.PopulateConfig | lib/ansible/modules/network/asa/asa_facts.py:291-307 | the facts are updated by `ConfigFacts` |
| Collectors.Collector.PopulateInterfaces | lib/ansible/modules/network/asa/asa_facts.py:316-322 | it succeeds exactly when `InterfacesFacts` does and then updates by it; a parse error leaves the facts unchanged |
| AsaFacts.Enumerate | lib/ansible/modules/network/asa/asa_facts.py:458-462 | iterating a set yields each element exactly once |
| AsaFacts.EnumerationLength | lib/ansible/modules/network/asa/asa_facts.py:458 | the 'gather_subset' list is as long as the resolved set |
| AsaFacts.Merge | lib/ansible/modules/network/asa/asa_facts.py:464-466 | `facts.update` with each collector's facts in list order, starting from an empty dict (no contract of its own: `MergeKeys` and `MergeLastWins` state what it computes) |
| AsaFacts.MergeKeys | lib/ansible/modules/network/asa/asa_facts.py:464-466 | a key is in the merged facts exactly when some collector's facts hold it |
| AsaFacts.MergeLastWins | lib/ansible/modules/network/asa/asa_facts.py:464-466 | a merged key keeps the value from the last collector that has it |
| AsaFacts.OutcomesOn | lib/ansible/modules/network/asa/asa_facts.py:397-403 | on any device, the five collectors record pairwise disjoint keys, never 'gather_subset', and only the interface collector raises |
| AsaFacts.CollectAll | lib/ansible/modules/network/asa/asa_facts.py:464-466 | populating a list of collectors yields one facts dict per collector, or the error of a collector in the list |
| AsaFacts.CollectAllFailsAt | lib/ansible/modules/network/asa/asa_facts.py:464-466 | the first collector that raises decides the error of the whole loop |
| AsaFacts.Collected | lib/ansible/modules/network/asa/asa_facts.py:457-466 | the order-free result of populating a set of collectors fails exactly when the interface collector is among them and raises, always with `KeyError('')` |
| AsaFacts.MergeInAnyOrder | lib/ansible/modules/network/asa/asa_facts.py:460-466 | populating and merging in any enumeration of the resolved set gives the same facts, `Collected` |
| AsaFacts.CreateCollectors | lib/ansible/modules/network/asa/asa_facts.py:460-462 | one fresh, distinct collector per listed name, in list order, each with empty facts |
| AsaFacts.PopulateOne | lib/ansible/modules/network/asa/asa_facts.py:464-466 | one turn of the loop either extends the merged facts by this collector's facts or raises the error that ends the loop |
| AsaFacts.PopulateAll | lib/ansible/modules/network/asa/asa_facts.py:464-466 | the loop fails exactly when `CollectAll` fails, with its error, and otherwise returns the seed updated with every collector's facts in list order |
| AsaFacts.Namespaced | lib/ansible/modules/network/asa/asa_facts.py:468-471 | every key `k` becomes 'ansible_net_' + `k` with its value, and every renamed key comes from exactly one fact |
| AsaFacts.NamespaceFacts | lib/ansible/modules/network/asa/asa_facts.py:468-471 | the renaming loop, in any dict order, builds exactly `Namespaced` |
| AsaFacts.NamespacedSize | lib/ansible/modules/network/asa/asa_facts.py:468-471 | renaming loses no fact: the result has as many keys as the merged facts |
| AsaFacts.GatherFacts | lib/ansible/modules/network/asa/asa_facts.py:424-473 | a bad token fails with 'Bad subset'; otherwise the run fails exactly when the interface collector is resolved and raises, and then with `KeyError('')`; a successful run reports the resolved names under 'gather_subset' and the merged facts, all renamed |
| AsaFacts.FailedRun | lib/ansible/modules/network/asa/asa_facts.py:464-466 | a failed populate loop means the interface collector was resolved and raised `KeyError('')` |
| AsaFacts.SuccessfulRun | lib/ansible/modules/network/asa/asa_facts.py:457-473 | a populate loop without error yields the reported facts: the renamed union of the resolved collectors' facts and 'gather_subset' |
| AsaFacts.MergedRun | lib/ansible/modules/network/asa/asa_facts.py:457-466 | before renaming, the facts are the collectors' union with the name list under 'gather_subset', which no collector overwrites |

## Left out

- Regular expressions: the grammar of Python's `re` is not modelled. `re.search` and `re.findall` are the two functions of `Device.Regex`. Each pattern is a constructor of `Patterns.Pattern`; `Patterns.Source` gives its text as the module writes it and `Patterns.Multiline` its `re.M` flag. The anchored `re.match` pair of `parse_interfaces` (asa_facts.py:349-352) is the `interfaceHeader` function of `Device.Device`. It gives the interface name and the rest of the header line.
- Device I/O: `run_commands` and `get_config` (module_utils/network/asa) are not part of this model. The device's answers are the `run` and `runningConfig` fields of `Device.Device`. Connection and transport errors raised by `run_commands` and `get_config` are device I/O and are left out with it.
- `FactsBase.run` (asa_facts.py:173-174): not modelled, because no collector calls it.
- Argument handling: `AnsibleModule` construction, `asa_argument_spec`, `check_args` and check mode are not modelled. Neither is the coercion of a comma-separated string into a list (`type='list'`). `GatherFacts` takes the already-coerced list.
- `exit_json` and the global `warnings` list: not modelled. `warnings` is always empty, and `GatherFacts` returns the `ansible_facts` dict, or the error in place of `fail_json`/the traceback.
- White space: `Device.IsSpace` holds for the characters for which Python 3's `str.isspace()` holds, the set `str.strip()` removes. Python 2 byte strings strip only the ASCII subset of it; that variant is not modelled.
- AsaFacts.GatherFacts: says the success result holds the resolved names in some enumeration of the set. It does not say which order, because Python's set and dict iteration order is not fixed by the language. The same applies to the iteration in `populate_interfaces` and in the renaming loop.
- Collectors.Collector.Populate: records `responses` as a sequence of strings. It does not model `run_commands`' own handling of the empty command list that `Config` sends.
