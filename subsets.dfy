/**
 * Resolution of the `gather_subset` option into the set of fact collectors to run
 * (asa_facts.py, `FACT_SUBSETS`, `VALID_SUBSETS` and the first loop of `main`).
 */
module Subsets {
  import opened Wrappers
  import opened Errors

  /** VALID_SUBSETS: the keys of FACT_SUBSETS. */
  const ValidSubsets: set<string> := {"default", "hardware", "interfaces", "config", "failover"}

  /** The collector `main` adds back after every exclusion. */
  const Baseline: string := "default"

  /** The option's default value, '!config', once coerced to a list. */
  const DefaultGatherSubset: seq<string> := ["!config"]

  predicate IsNegated(token: string) {
    |token| > 0 && token[0] == '!'
  }

  /** The token with one leading '!' removed, as `subset[1:]` does. */
  function Unnegated(token: string): (name: string)
    ensures IsNegated(token) ==> token == "!" + name
    ensures !IsNegated(token) ==> name == token
  {
    if IsNegated(token) then token[1..] else token
  }

  /** A token that `main` answers with fail_json('Bad subset'). */
  predicate IsBadToken(token: string) {
    token != "all" && token != "!all" && Unnegated(token) !in ValidSubsets
  }

  /** The names a token list includes: all of them once 'all' is given, else those named bare. */
  function Included(tokens: seq<string>): set<string> {
    if "all" in tokens then ValidSubsets
    else set t | t in tokens && t in ValidSubsets
  }

  /** The names a token list excludes: all of them once '!all' is given, else those named after '!'. */
  function Excluded(tokens: seq<string>): set<string> {
    if "!all" in tokens then ValidSubsets
    else set t | t in tokens && IsNegated(t) && t[1..] in ValidSubsets :: t[1..]
  }

  /**
   * The outcome of the resolution, stated over the whole token list at once: any bad
   * token fails the run; otherwise everything is included when nothing was included
   * by name, the exclusions are taken away and the baseline is added back.
   */
  function Resolve(tokens: seq<string>): (r: Result<set<string>, Error>)
    ensures r.Success? ==> Baseline in r.value && r.value <= ValidSubsets
    ensures r.Failure? <==> exists t :: t in tokens && IsBadToken(t)
    ensures r.Failure? ==> r.error == BadSubset
  {
    if exists t :: t in tokens && IsBadToken(t) then
      Failure(BadSubset)
    else
      var included := Included(tokens);
      Success((if included == {} then ValidSubsets else included) - Excluded(tokens) + {Baseline})
  }

  /**
   * The resolution loop of `main`: one pass over the tokens that grows `runable` and
   * `exclude` in place and stops at the first bad token.
   */
  method ResolveSubsets(gatherSubset: seq<string>) returns (r: Result<set<string>, Error>)
    ensures r == Resolve(gatherSubset)
  {
    var runable: set<string> := {};
    var exclude: set<string> := {};
    for i := 0 to |gatherSubset|
      invariant forall t | t in gatherSubset[..i] :: !IsBadToken(t)
      invariant runable <= ValidSubsets && exclude <= ValidSubsets
      invariant runable == Included(gatherSubset[..i])
      invariant exclude == Excluded(gatherSubset[..i])
    {
      var subset := gatherSubset[i];
      IncludedStep(gatherSubset, i);
      ExcludedStep(gatherSubset, i);
      if subset == "all" {
        runable := runable + ValidSubsets;
      } else {
        var isExclude := false;
        if |subset| > 0 && subset[0] == '!' {
          subset := subset[1..];
          isExclude := true;
        }
        if isExclude && subset == "all" {
          exclude := exclude + ValidSubsets;
        } else {
          if subset !in ValidSubsets {
            assert IsBadToken(gatherSubset[i]);
            return Failure(BadSubset);
          }
          if isExclude {
            exclude := exclude + {subset};
          } else {
            runable := runable + {subset};
          }
        }
      }
    }
    assert gatherSubset[..|gatherSubset|] == gatherSubset;
    ResolvedFrom(gatherSubset, runable, exclude);
    ghost var expected := (if runable == {} then ValidSubsets else runable) - exclude + {Baseline};
    if runable == {} {
      runable := runable + ValidSubsets;
    }
    runable := runable - exclude;
    runable := runable + {Baseline};
    assert runable == expected;
    return Success(runable);
  }

  /** Once the loop has passed every token, `Resolve` is what the three updates after it compute. */
  lemma ResolvedFrom(tokens: seq<string>, runable: set<string>, exclude: set<string>)
    requires forall t | t in tokens :: !IsBadToken(t)
    requires runable == Included(tokens) && exclude == Excluded(tokens)
    ensures Resolve(tokens) == Success((if runable == {} then ValidSubsets else runable) - exclude + {Baseline})
  {
  }

  /** One more token: 'all' includes every name, a valid bare name includes itself. */
  lemma IncludedStep(tokens: seq<string>, i: nat)
    requires i < |tokens|
    ensures tokens[i] == "all" ==> Included(tokens[..i + 1]) == ValidSubsets
    ensures tokens[i] != "all" && tokens[i] in ValidSubsets ==>
      Included(tokens[..i + 1]) == Included(tokens[..i]) + {tokens[i]}
    ensures tokens[i] != "all" && tokens[i] !in ValidSubsets ==>
      Included(tokens[..i + 1]) == Included(tokens[..i])
  {
    assert tokens[..i + 1] == tokens[..i] + [tokens[i]];
  }

  /** One more token: '!all' excludes every name, '!' and a valid name excludes that name. */
  lemma ExcludedStep(tokens: seq<string>, i: nat)
    requires i < |tokens|
    ensures tokens[i] == "!all" ==> Excluded(tokens[..i + 1]) == ValidSubsets
    ensures tokens[i] != "!all" && IsNegated(tokens[i]) && tokens[i][1..] in ValidSubsets ==>
      Excluded(tokens[..i + 1]) == Excluded(tokens[..i]) + {tokens[i][1..]}
    ensures tokens[i] != "!all" && !(IsNegated(tokens[i]) && tokens[i][1..] in ValidSubsets) ==>
      Excluded(tokens[..i + 1]) == Excluded(tokens[..i])
  {
    assert tokens[..i + 1] == tokens[..i] + [tokens[i]];
  }

  /** An exclusion wins over any inclusion of the same name, whatever the order of the tokens. */
  lemma ExclusionWins(tokens: seq<string>, name: string)
    requires Resolve(tokens).Success?
    requires name != Baseline
    requires "!" + name in tokens || "!all" in tokens
    ensures name !in Resolve(tokens).value
  {
    assert ("!" + name)[1..] == name;
  }

  /** Only which tokens occur matters, not their order or repetition. */
  lemma TokenOrderIrrelevant(a: seq<string>, b: seq<string>)
    requires forall t :: t in a <==> t in b
    ensures Resolve(a) == Resolve(b)
  {
    assert Included(a) == Included(b);
    assert Excluded(a) == Excluded(b);
  }

  /** With no bare token, the result is every valid name minus the exclusions, plus the baseline. */
  lemma OnlyExclusions(tokens: seq<string>)
    requires Resolve(tokens).Success?
    requires forall t | t in tokens :: IsNegated(t)
    ensures Resolve(tokens).value == ValidSubsets - Excluded(tokens) + {Baseline}
  {
    forall name | name in ValidSubsets
      ensures name !in tokens
    {
      assert !IsNegated(name);
    }
    assert Included(tokens) == {};
  }

  /** Any token other than 'all' and '!all' that names no collector after one '!' is removed fails the run. */
  lemma BadTokenFails(tokens: seq<string>, i: nat)
    requires i < |tokens|
    requires tokens[i] != "all" && tokens[i] != "!all"
    requires Unnegated(tokens[i]) !in ValidSubsets
    ensures Resolve(tokens) == Failure(BadSubset)
  {
    assert IsBadToken(tokens[i]);
  }

  /** The malformed tokens '', '!', '!!hardware' and 'bogus' all fail. */
  lemma MalformedTokensFail()
    ensures Resolve([""]) == Failure(BadSubset)
    ensures Resolve(["!"]) == Failure(BadSubset)
    ensures Resolve(["!!hardware"]) == Failure(BadSubset)
    ensures Resolve(["hardware", "bogus"]) == Failure(BadSubset)
  {
    BadTokenFails([""], 0);
    BadTokenFails(["!"], 0);
    BadTokenFails(["!!hardware"], 0);
    BadTokenFails(["hardware", "bogus"], 1);
  }

  /** A single bare name runs that collector and the baseline. */
  lemma OneInclusion(name: string)
    requires name in ValidSubsets
    ensures Resolve([name]) == Success({name, Baseline})
  {
    assert !IsBadToken(name);
    assert Included([name]) == {name};
    assert !IsNegated(name);
    assert Excluded([name]) == {};
    assert !exists t :: t in [name] && IsBadToken(t);
    assert Resolve([name]) == Success(Included([name]) - Excluded([name]) + {Baseline});
    assert Included([name]) - Excluded([name]) + {Baseline} == {name, Baseline};
  }

  /** A single '!name' runs every collector but that one (the baseline always). */
  lemma OneExclusion(token: string)
    requires IsNegated(token) && token[1..] in ValidSubsets
    ensures Resolve([token]) == Success(ValidSubsets - {token[1..]} + {Baseline})
  {
    assert !IsBadToken(token);
    assert token !in ValidSubsets;
    assert Included([token]) == {};
    assert Excluded([token]) == {token[1..]};
    assert Resolve([token]) == Success(ValidSubsets - {token[1..]} + {Baseline});
  }

  /** 'all' runs every collector. */
  lemma AllOutcome()
    ensures Resolve(["all"]) == Success(ValidSubsets)
  {
    assert !IsBadToken("all");
    assert !IsNegated("all");
    assert Excluded(["all"]) == {};
    assert Included(["all"]) == ValidSubsets;
    assert ValidSubsets - {} + {Baseline} == ValidSubsets;
  }

  /** 'config' runs the config collector and the baseline. */
  lemma ConfigOutcome()
    ensures Resolve(["config"]) == Success({"config", "default"})
  {
    OneInclusion("config");
  }

  /** '!hardware' runs every collector but the hardware one. */
  lemma NotHardwareOutcome()
    ensures Resolve(["!hardware"]) == Success({"default", "interfaces", "config", "failover"})
  {
    assert "!hardware"[1..] == "hardware";
    OneExclusion("!hardware");
    assert ValidSubsets - {"hardware"} + {Baseline} == {"default", "interfaces", "config", "failover"};
  }

  /** The option's default, '!config', runs every collector but the config one. */
  lemma DefaultOptionOutcome()
    ensures Resolve(DefaultGatherSubset) == Success({"default", "hardware", "interfaces", "failover"})
  {
    assert "!config"[1..] == "config";
    OneExclusion("!config");
    assert ValidSubsets - {"config"} + {Baseline} == {"default", "hardware", "interfaces", "failover"};
  }

  /** '!all' leaves only the baseline. */
  lemma NotAllOutcome()
    ensures Resolve(["!all"]) == Success({"default"})
  {
    assert !IsBadToken("!all");
    assert Excluded(["!all"]) == ValidSubsets;
    assert Included(["!all"]) == {};
    assert ValidSubsets - ValidSubsets + {Baseline} == {"default"};
  }

  /** '!all' leaves only the baseline even beside a bare name. */
  lemma NotAllBesideName()
    ensures Resolve(["!all", "hardware"]) == Success({"default"})
  {
    assert !IsBadToken("!all") && !IsBadToken("hardware");
    assert Excluded(["!all", "hardware"]) == ValidSubsets;
    assert Included(["!all", "hardware"]) == {"hardware"};
    assert {"hardware"} - ValidSubsets + {Baseline} == {"default"};
  }

  /** 'all' with '!hardware' runs every collector but the hardware one, in either order. */
  lemma AllButHardware()
    ensures Resolve(["all", "!hardware"]) == Resolve(["!hardware", "all"])
    ensures Resolve(["all", "!hardware"]) == Success({"default", "interfaces", "config", "failover"})
  {
    TokenOrderIrrelevant(["all", "!hardware"], ["!hardware", "all"]);
    assert "!hardware"[1..] == "hardware";
    assert !IsBadToken("all") && !IsBadToken("!hardware");
    assert Excluded(["all", "!hardware"]) == {"hardware"};
    assert ValidSubsets - {"hardware"} + {Baseline} == {"default", "interfaces", "config", "failover"};
  }
}
