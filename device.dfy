/**
 * What the fact collectors read from outside the module: the device's answers to
 * CLI commands, its running configuration, and the regular-expression engine that
 * the `parse_*` helpers call. All of it enters the model as values, never as I/O.
 */
module Device {
  import opened Wrappers
  import opened Patterns

  /** A fact value as it reaches the JSON result: None, a bool, a string, a list of strings or a dict. */
  datatype Value =
    | Null
    | Bool(b: bool)
    | Str(s: string)
    | StrList(items: seq<string>)
    | Dict(entries: map<string, Value>)

  /** The value of a `parse_*` helper that returns its capture or falls off its end (None). */
  function OrNull(capture: Option<string>): (v: Value)
    ensures v.Null? <==> capture.None?
    ensures capture.Some? ==> v == Str(capture.value)
  {
    match capture
    case Some(s) => Str(s)
    case None => Null
  }

  /**
   * `re.search` and `re.findall` applied to a pattern's `Source` with its `Multiline`
   * flag; their grammar is not modelled. `search` gives the groups of the first match,
   * the whole match at index 0; `findall` the first group of every match.
   */
  datatype Regex = Regex(
    search: (Pattern, string) -> Option<seq<string>>,
    findall: (Pattern, string) -> seq<string>)

  /** `match.group(n)` of a search, or None when nothing matched. */
  function Group(m: Option<seq<string>>, n: nat): (g: Option<string>)
    ensures g.Some? ==> m.Some? && n < |m.value| && g.value == m.value[n]
  {
    if m.Some? && n < |m.value| then Some(m.value[n]) else None
  }

  /** The capture of group `n` of the first match of `p` in `text`, or None. */
  function Capture(re: Regex, p: Pattern, text: string, n: nat): (c: Option<string>)
    ensures c.Some? ==> re.search(p, text).Some?
  {
    Group(re.search(p, text), n)
  }

  /** An interface header line split into the interface name and the rest of the line. */
  datatype Header = Header(name: string, rest: string)

  /**
   * The device as the module sees it: `run` answers one CLI command with its text
   * (`run_commands` with `check_rc=False`), `runningConfig` is what `get_config` returns,
   * `re` the regex engine, and `interfaceHeader` the pair of anchored matches that
   * recognise an interface header line (its name, then the text after the first word).
   */
  datatype Device = Device(
    run: string -> string,
    runningConfig: string,
    re: Regex,
    interfaceHeader: string -> Option<Header>)

  /** The responses to a batch of commands, one per command, in order. */
  function RunCommands(d: Device, commands: seq<string>): (responses: seq<string>)
    ensures |responses| == |commands|
    ensures forall i | 0 <= i < |commands| :: responses[i] == d.run(commands[i])
  {
    seq(|commands|, i requires 0 <= i < |commands| => d.run(commands[i]))
  }

  /**
   * The characters Python 3's `str.strip()` removes, those for which `str.isspace()`
   * holds: the ASCII controls 9-13 and 28-31, the space, and the Unicode white space.
   */
  predicate IsSpace(c: char) {
    var n := c as int;
    || 9 <= n <= 13 || 28 <= n <= 32 || n == 0x85 || n == 0xA0 || n == 0x1680
    || 0x2000 <= n <= 0x200A || n == 0x2028 || n == 0x2029 || n == 0x202F
    || n == 0x205F || n == 0x3000
  }

  /** The first position at or after `i` that holds no white space, or the end of `s`. */
  function SkipSpaces(s: string, i: nat): (n: nat)
    requires i <= |s|
    ensures i <= n <= |s|
    ensures forall k | i <= k < n :: IsSpace(s[k])
    ensures n == |s| || !IsSpace(s[n])
    decreases |s| - i
  {
    if i < |s| && IsSpace(s[i]) then SkipSpaces(s, i + 1) else i
  }

  /** The end of `s[lo..j]` once its trailing white space is dropped. */
  function DropSpaces(s: string, lo: nat, j: nat): (n: nat)
    requires lo <= j <= |s|
    ensures lo <= n <= j
    ensures forall k | n <= k < j :: IsSpace(s[k])
    ensures n == lo || !IsSpace(s[n - 1])
  {
    if lo < j && IsSpace(s[j - 1]) then DropSpaces(s, lo, j - 1) else j
  }

  /** `s[i..j]` keeps the text between the leading and the trailing white space of `s`. */
  predicate StrippedAt(s: string, i: int, j: int) {
    && 0 <= i <= j <= |s|
    && (forall k | 0 <= k < i :: IsSpace(s[k]))
    && (forall k | j <= k < |s| :: IsSpace(s[k]))
    && (i == j || (!IsSpace(s[i]) && !IsSpace(s[j - 1])))
  }

  /**
   * `str.strip()`: the slice of `s` left once every leading and every trailing white
   * space character is removed.
   */
  function Strip(s: string): (r: string)
    ensures exists i, j :: StrippedAt(s, i, j) && r == s[i..j]
  {
    var i := SkipSpaces(s, 0);
    var j := DropSpaces(s, i, |s|);
    assert StrippedAt(s, i, j);
    s[i..j]
  }

  /** The slice `Strip` keeps, as positions in `s`. */
  lemma StripBounds(s: string) returns (a: int, b: int)
    ensures StrippedAt(s, a, b) && Strip(s) == s[a..b]
  {
    a := SkipSpaces(s, 0);
    b := DropSpaces(s, a, |s|);
  }

  /** Two stripped slices of the same text are the same slice. */
  lemma StrippedSlicesAgree(s: string, i: int, j: int, a: int, b: int)
    requires StrippedAt(s, i, j) && StrippedAt(s, a, b)
    ensures s[i..j] == s[a..b]
  {
    if i == j {
      // All of `s` is white space, so the other slice is empty too.
      if a < b {
        assert false;
      }
    } else if a == b {
      assert false;
    } else {
      assert a == i && b == j;
    }
  }

  /** Only one slice is stripped, so `Strip`'s contract fixes its result. */
  lemma StripUnique(s: string, i: int, j: int)
    requires StrippedAt(s, i, j)
    ensures Strip(s) == s[i..j]
  {
    var a, b := StripBounds(s);
    StrippedSlicesAgree(s, i, j, a, b);
  }
}
