/**
 * The `Interfaces` collector's own logic (asa_facts.py): `parse_interfaces`, which
 * cuts the text of 'show interface' into one entry per interface header line, and
 * `populate_interfaces`, which turns every entry into a fixed eight-field record.
 */
module InterfaceParser {
  import opened Wrappers
  import opened Errors
  import opened Patterns
  import opened Device
  import Lines

  /** A line that continues the current entry: it starts with a tab or a space. */
  predicate IsIndented(line: string) {
    |line| > 0 && (line[0] == '\t' || line[0] == ' ')
  }

  /** A non-empty, non-indented line that the header regex accepts. */
  predicate IsHeader(header: string -> Option<Header>, line: string) {
    |line| > 0 && !IsIndented(line) && header(line).Some?
  }

  /** The loop variables of `parse_interfaces`: the current `key` and the `parsed` dict. */
  datatype ParseState = ParseState(key: string, parsed: map<string, string>)

  const Start: ParseState := ParseState("", map[])

  /**
   * One turn of the loop of `parse_interfaces`. An indented line extends the current
   * entry and nothing else, or raises `KeyError(key)` when there is none; a header line
   * makes its name the key and (re)starts its entry; every other line changes nothing.
   */
  function Step(header: string -> Option<Header>, st: ParseState, line: string): (r: Result<ParseState, Error>)
    ensures r.Failure? <==> IsIndented(line) && st.key !in st.parsed
    ensures r.Failure? ==> r.error == KeyError(st.key)
    ensures IsIndented(line) && r.Success? ==>
      && r.value.key == st.key
      && r.value.parsed.Keys == st.parsed.Keys
      && r.value.parsed[st.key] == st.parsed[st.key] + "\n" + line
      && forall k | k in st.parsed && k != st.key :: r.value.parsed[k] == st.parsed[k]
    ensures IsHeader(header, line) ==>
      r == Success(ParseState(header(line).value.name, st.parsed[header(line).value.name := header(line).value.rest]))
    ensures !IsIndented(line) && !IsHeader(header, line) ==> r == Success(st)
  {
    if |line| == 0 then
      Success(st)
    else if line[0] == '\t' || line[0] == ' ' then
      if st.key in st.parsed then
        Success(st.(parsed := st.parsed[st.key := st.parsed[st.key] + "\n" + line]))
      else
        Failure(KeyError(st.key))
    else
      match header(line)
      case Some(h) => Success(ParseState(h.name, st.parsed[h.name := h.rest]))
      case None => Success(st)
  }

  /** The state after the loop has consumed `lines`, or the error that stopped it. */
  function Run(header: string -> Option<Header>, lines: seq<string>): Result<ParseState, Error> {
    if |lines| == 0 then
      Success(Start)
    else
      match Run(header, lines[..|lines| - 1])
      case Failure(e) => Failure(e)
      case Success(st) => Step(header, st, lines[|lines| - 1])
  }

  /**
   * `parse_interfaces(data)`: one pass over the lines of `data` that keeps the current
   * interface name in `key` and grows `parsed` in place.
   */
  method ParseInterfaces(header: string -> Option<Header>, data: string) returns (r: Result<map<string, string>, Error>)
    ensures r.Failure? <==> Run(header, Lines.Split(data)).Failure?
    ensures r.Failure? ==> r.error == Run(header, Lines.Split(data)).error
    ensures r.Success? ==> r.value == Run(header, Lines.Split(data)).value.parsed
  {
    var lines := Lines.Split(data);
    var parsed: map<string, string> := map[];
    var key := "";
    for i := 0 to |lines|
      invariant Run(header, lines[..i]) == Success(ParseState(key, parsed))
    {
      var line := lines[i];
      assert lines[..i + 1][..i] == lines[..i];
      if |line| == 0 {
        continue;
      } else if line[0] == '\t' || line[0] == ' ' {
        if key !in parsed {
          FailureStops(header, lines, i + 1);
          return Failure(KeyError(key));
        }
        parsed := parsed[key := parsed[key] + "\n" + line];
      } else {
        var m := header(line);
        if m.Some? {
          key := m.value.name;
          parsed := parsed[key := m.value.rest];
        }
      }
    }
    assert lines[..|lines|] == lines;
    return Success(parsed);
  }

  /** Once a prefix of the lines has failed, the whole run fails the same way. */
  lemma {:induction false} FailureStops(header: string -> Option<Header>, lines: seq<string>, k: nat)
    requires k <= |lines| && Run(header, lines[..k]).Failure?
    ensures Run(header, lines) == Run(header, lines[..k])
    decreases |lines| - k
  {
    if k < |lines| {
      assert lines[..k + 1][..k] == lines[..k];
      FailureStops(header, lines, k + 1);
    } else {
      assert lines[..k] == lines;
    }
  }

  /**
   * The loop's `key` names an entry of `parsed` once any header line has been seen, so
   * the only key the loop can fail to find is the empty one it starts with.
   */
  lemma {:induction false} OnlyEmptyKeyMissing(header: string -> Option<Header>, lines: seq<string>)
    ensures Run(header, lines).Success? ==>
      Run(header, lines).value.key in Run(header, lines).value.parsed || Run(header, lines).value.key == ""
    ensures Run(header, lines).Failure? ==> Run(header, lines).error == KeyError("")
    decreases |lines|
  {
    if |lines| > 0 {
      OnlyEmptyKeyMissing(header, lines[..|lines| - 1]);
    }
  }

  // ---------------------------------------------------------------------------
  // populate_interfaces: one record of eight fields per parsed entry.

  /** Each field of an interface record and the pattern its `parse_*` helper searches for. */
  const FieldPatterns: map<string, Pattern> := map[
    "description" := Description,
    "macaddress" := MacAddress,
    "mtu" := Mtu,
    "lineprotocol" := LineProtocol,
    "operstatus" := OperStatus,
    "interface-type" := InterfaceType,
    "ipv4_addr" := Ipv4Addr,
    "ipv4_subnet" := Ipv4Subnet
  ]

  /** The keys of every interface record. */
  const InterfaceFields: set<string> := FieldPatterns.Keys

  /**
   * The record `populate_interfaces` builds from one entry: every field holds the first
   * capture of its pattern, or None when the pattern does not match, except the
   * description, which is never None and falls back to 'not set'.
   */
  function InterfaceRecord(re: Regex, entry: string): (record: Value)
    ensures record.Dict? && record.entries.Keys == InterfaceFields
    ensures forall f | f in InterfaceFields && f != "description" ::
      && (record.entries[f].Null? <==> Capture(re, FieldPatterns[f], entry, 1).None?)
      && (record.entries[f].Str? <==> Capture(re, FieldPatterns[f], entry, 1).Some?)
      && record.entries[f] == OrNull(Capture(re, FieldPatterns[f], entry, 1))
    ensures record.entries["description"].Str?
    ensures Capture(re, Description, entry, 1).None? ==> record.entries["description"] == Str("not set")
    ensures Capture(re, Description, entry, 1).Some? ==>
      record.entries["description"] == Str(Capture(re, Description, entry, 1).value)
  {
    assert "description" in FieldPatterns;
    Dict(map f | f in FieldPatterns ::
      if f == "description" then Str(Capture(re, Description, entry, 1).GetOr("not set"))
      else OrNull(Capture(re, FieldPatterns[f], entry, 1)))
  }

  /** What `populate_interfaces` returns: the same interface names, each mapped to its record. */
  function InterfaceTable(re: Regex, interfaces: map<string, string>): (facts: map<string, Value>)
    ensures facts.Keys == interfaces.Keys
    ensures forall name | name in facts ::
      && facts[name].Dict?
      && facts[name].entries.Keys == InterfaceFields
      && facts[name].entries["description"].Str?
    ensures forall name | name in facts :: facts[name] == InterfaceRecord(re, interfaces[name])
  {
    map name | name in interfaces :: InterfaceRecord(re, interfaces[name])
  }

  /**
   * `populate_interfaces`: one pass over the parsed entries, in whatever order the
   * dict yields them, adding one record per entry to a fresh dict.
   */
  method PopulateInterfaces(re: Regex, interfaces: map<string, string>) returns (facts: map<string, Value>)
    ensures facts == InterfaceTable(re, interfaces)
  {
    facts := map[];
    var remaining := interfaces.Keys;
    while remaining != {}
      invariant remaining <= interfaces.Keys
      invariant facts.Keys == interfaces.Keys - remaining
      invariant forall name | name in facts :: facts[name] == InterfaceRecord(re, interfaces[name])
      decreases remaining
    {
      var key :| key in remaining;
      facts := facts[key := InterfaceRecord(re, interfaces[key])];
      remaining := remaining - {key};
    }
  }

  // ---------------------------------------------------------------------------
  // What the loop computes, stated over the whole list of lines.

  /** Some header line comes before line `i`. */
  predicate HeaderBefore(header: string -> Option<Header>, lines: seq<string>, i: nat)
    requires i <= |lines|
  {
    exists j :: 0 <= j < i && IsHeader(header, lines[j])
  }

  /** Every indented line has a header line somewhere before it. */
  predicate NoOrphanLines(header: string -> Option<Header>, lines: seq<string>) {
    forall i | 0 <= i < |lines| && IsIndented(lines[i]) :: HeaderBefore(header, lines, i)
  }

  /** The names of all header lines. */
  function HeaderNames(header: string -> Option<Header>, lines: seq<string>): set<string> {
    set i | 0 <= i < |lines| && IsHeader(header, lines[i]) :: header(lines[i]).value.name
  }

  /** Header line `j` is the last one that names its interface. */
  predicate LastOfItsName(header: string -> Option<Header>, lines: seq<string>, j: nat)
    requires j < |lines|
  {
    IsHeader(header, lines[j]) &&
    forall m | j < m < |lines| && IsHeader(header, lines[m]) ::
      header(lines[m]).value.name != header(lines[j]).value.name
  }

  /** The index of the first header line at or after `m`, or the end of the lines. */
  function NextHeader(header: string -> Option<Header>, lines: seq<string>, m: nat): (n: nat)
    requires m <= |lines|
    ensures m <= n <= |lines|
    ensures n < |lines| ==> IsHeader(header, lines[n])
    ensures forall k | m <= k < n :: !IsHeader(header, lines[k])
    decreases |lines| - m
  {
    if m == |lines| then m
    else if IsHeader(header, lines[m]) then m
    else NextHeader(header, lines, m + 1)
  }

  /** What a run of continuation lines adds to an entry: each indented line, after a line break. */
  function Body(lines: seq<string>): string {
    if |lines| == 0 then ""
    else
      var last := lines[|lines| - 1];
      Body(lines[..|lines| - 1]) + (if IsIndented(last) then "\n" + last else "")
  }

  /** `key` is the name on the last header line. */
  ghost predicate KeyIsLastHeader(header: string -> Option<Header>, lines: seq<string>, key: string) {
    forall j | 0 <= j < |lines| && IsHeader(header, lines[j]) && NextHeader(header, lines, j + 1) == |lines| ::
      key == header(lines[j]).value.name
  }

  /**
   * The entry of every interface is the rest of its last header line followed by the
   * indented lines up to the next header line.
   */
  ghost predicate EntriesFollowHeaders(header: string -> Option<Header>, lines: seq<string>, parsed: map<string, string>) {
    forall j | 0 <= j < |lines| && LastOfItsName(header, lines, j) ::
      && header(lines[j]).value.name in parsed
      && parsed[header(lines[j]).value.name]
         == header(lines[j]).value.rest + Body(lines[j + 1..NextHeader(header, lines, j + 1)])
  }

  /**
   * The state after a successful run over `lines`: one entry per header name, the name
   * on the last header line as the current key, and nothing at all before the first
   * header line.
   */
  ghost predicate Describes(header: string -> Option<Header>, lines: seq<string>, st: ParseState) {
    && st.parsed.Keys == HeaderNames(header, lines)
    && (!HeaderBefore(header, lines, |lines|) ==> st == Start)
    && KeyIsLastHeader(header, lines, st.key)
    && EntriesFollowHeaders(header, lines, st.parsed)
  }

  // ---------------------------------------------------------------------------
  // How the whole-list notions change when one more line is read.

  lemma HeaderBeforeExtend(header: string -> Option<Header>, p: seq<string>, l: string)
    ensures forall i | 0 <= i <= |p| :: HeaderBefore(header, p + [l], i) == HeaderBefore(header, p, i)
    ensures HeaderBefore(header, p + [l], |p| + 1) == (HeaderBefore(header, p, |p|) || IsHeader(header, l))
  {
    var ls := p + [l];
    forall i | 0 <= i <= |p| ensures HeaderBefore(header, ls, i) == HeaderBefore(header, p, i) {
      if HeaderBefore(header, ls, i) {
        var j :| 0 <= j < i && IsHeader(header, ls[j]);
        assert p[j] == ls[j];
      }
      if HeaderBefore(header, p, i) {
        var j :| 0 <= j < i && IsHeader(header, p[j]);
        assert p[j] == ls[j];
      }
    }
    if IsHeader(header, l) {
      assert ls[|p|] == l;
    }
    if HeaderBefore(header, ls, |p| + 1) && !IsHeader(header, l) {
      var j :| 0 <= j < |p| + 1 && IsHeader(header, ls[j]);
      assert j < |p| && p[j] == ls[j];
    }
  }

  lemma HeaderNamesExtend(header: string -> Option<Header>, p: seq<string>, l: string)
    ensures HeaderNames(header, p + [l])
      == HeaderNames(header, p) + (if IsHeader(header, l) then {header(l).value.name} else {})
  {
    var ls := p + [l];
    forall x | x in HeaderNames(header, ls)
      ensures x in HeaderNames(header, p) || (IsHeader(header, l) && x == header(l).value.name)
    {
      var i :| 0 <= i < |ls| && IsHeader(header, ls[i]) && header(ls[i]).value.name == x;
      if i < |p| {
        assert ls[i] == p[i];
      }
    }
    forall x | x in HeaderNames(header, p) ensures x in HeaderNames(header, ls) {
      var i :| 0 <= i < |p| && IsHeader(header, p[i]) && header(p[i]).value.name == x;
      assert ls[i] == p[i];
    }
    if IsHeader(header, l) {
      assert ls[|p|] == l;
    }
  }

  lemma {:induction false} NextHeaderExtend(header: string -> Option<Header>, p: seq<string>, l: string, m: nat)
    requires m <= |p|
    ensures NextHeader(header, p + [l], m)
      == if NextHeader(header, p, m) < |p| then NextHeader(header, p, m)
         else if IsHeader(header, l) then |p| else |p| + 1
    decreases |p| - m
  {
    var ls := p + [l];
    if m == |p| {
      assert ls[m] == l;
      if !IsHeader(header, l) {
        assert NextHeader(header, ls, m) == NextHeader(header, ls, m + 1);
      }
    } else {
      assert ls[m] == p[m];
      if !IsHeader(header, p[m]) {
        NextHeaderExtend(header, p, l, m + 1);
      }
    }
  }

  lemma BodyExtend(s: seq<string>, l: string)
    ensures Body(s + [l]) == Body(s) + (if IsIndented(l) then "\n" + l else "")
  {
    assert (s + [l])[..|s|] == s;
  }

  /** Some header line is the last one. */
  lemma {:induction false} LastHeaderExists(header: string -> Option<Header>, p: seq<string>)
    requires HeaderBefore(header, p, |p|)
    ensures exists j :: 0 <= j < |p| && IsHeader(header, p[j]) && NextHeader(header, p, j + 1) == |p|
    decreases |p|
  {
    var n := |p| - 1;
    if IsHeader(header, p[n]) {
      assert NextHeader(header, p, n + 1) == |p|;
    } else {
      var q := p[..n];
      assert p == q + [p[n]];
      HeaderBeforeExtend(header, q, p[n]);
      LastHeaderExists(header, q);
      var j :| 0 <= j < n && IsHeader(header, q[j]) && NextHeader(header, q, j + 1) == n;
      NextHeaderExtend(header, q, p[n], j + 1);
      assert p[j] == q[j];
    }
  }

  /** Once a header has been read, the current key names an entry. */
  lemma KeyIsEntry(header: string -> Option<Header>, p: seq<string>, st: ParseState)
    requires Describes(header, p, st)
    requires HeaderBefore(header, p, |p|)
    ensures st.key in st.parsed
  {
    LastHeaderExists(header, p);
    var j :| 0 <= j < |p| && IsHeader(header, p[j]) && NextHeader(header, p, j + 1) == |p|;
    assert st.key == header(p[j]).value.name;
  }

  /** A line that is not a header keeps the key the last header line. */
  lemma KeyAfterNonHeader(header: string -> Option<Header>, p: seq<string>, l: string, key: string)
    requires KeyIsLastHeader(header, p, key)
    requires !IsHeader(header, l)
    ensures KeyIsLastHeader(header, p + [l], key)
  {
    var ls, n := p + [l], |p|;
    forall j | 0 <= j < n + 1 && IsHeader(header, ls[j]) && NextHeader(header, ls, j + 1) == n + 1
      ensures key == header(ls[j]).value.name
    {
      assert j < n && ls[j] == p[j];
      NextHeaderExtend(header, p, l, j + 1);
    }
  }

  /** A line that is neither a header nor indented adds nothing to any entry. */
  lemma EntriesAfterIgnored(header: string -> Option<Header>, p: seq<string>, l: string, parsed: map<string, string>)
    requires EntriesFollowHeaders(header, p, parsed)
    requires !IsHeader(header, l) && !IsIndented(l)
    ensures EntriesFollowHeaders(header, p + [l], parsed)
  {
    var ls := p + [l];
    forall j | 0 <= j < |ls| && LastOfItsName(header, ls, j)
      ensures header(ls[j]).value.name in parsed
      ensures parsed[header(ls[j]).value.name]
              == header(ls[j]).value.rest + Body(ls[j + 1..NextHeader(header, ls, j + 1)])
    {
      IgnoredAt(header, p, l, j);
      assert LastOfItsName(header, p, j) by {
        forall m | j < m < |p| ensures ls[m] == p[m] { }
      }
    }
  }

  /** The body after the header line at `j` does not grow by a line that is neither a header nor indented. */
  lemma IgnoredAt(header: string -> Option<Header>, p: seq<string>, l: string, j: nat)
    requires !IsHeader(header, l) && !IsIndented(l)
    requires j < |p| + 1 && IsHeader(header, (p + [l])[j])
    ensures j < |p| && (p + [l])[j] == p[j]
    ensures Body((p + [l])[j + 1..NextHeader(header, p + [l], j + 1)]) == Body(p[j + 1..NextHeader(header, p, j + 1)])
  {
    var ls, n := p + [l], |p|;
    assert j < n;
    var e := NextHeader(header, p, j + 1);
    NextHeaderExtend(header, p, l, j + 1);
    if e < n {
      assert ls[j + 1..e] == p[j + 1..e];
    } else {
      assert ls[j + 1..n + 1] == p[j + 1..n] + [l];
      BodyExtend(p[j + 1..n], l);
    }
  }

  /** A line that is neither a header nor indented leaves the state as it was. */
  lemma IgnoredLine(header: string -> Option<Header>, p: seq<string>, l: string, st: ParseState)
    requires Describes(header, p, st)
    requires !IsHeader(header, l) && !IsIndented(l)
    ensures Describes(header, p + [l], st)
  {
    HeaderBeforeExtend(header, p, l);
    HeaderNamesExtend(header, p, l);
    KeyAfterNonHeader(header, p, l, st.key);
    EntriesAfterIgnored(header, p, l, st.parsed);
  }

  /** An indented line continues the entry of the last header line. */
  lemma ContinuedLastEntry(header: string -> Option<Header>, p: seq<string>, l: string, j0: nat)
    requires j0 < |p| && NextHeader(header, p, j0 + 1) == |p|
    ensures NextHeader(header, p + [l], j0 + 1) == |p| + 1 || IsHeader(header, l)
    ensures Body((p + [l])[j0 + 1..|p| + 1]) == Body(p[j0 + 1..|p|]) + (if IsIndented(l) then "\n" + l else "")
  {
    NextHeaderExtend(header, p, l, j0 + 1);
    assert (p + [l])[j0 + 1..|p| + 1] == p[j0 + 1..|p|] + [l];
    BodyExtend(p[j0 + 1..|p|], l);
  }

  /** An earlier header line's entry is closed before the last header line. */
  lemma ClosedEntry(header: string -> Option<Header>, p: seq<string>, l: string, j0: nat, j: nat)
    requires j0 < |p| && IsHeader(header, p[j0]) && NextHeader(header, p, j0 + 1) == |p|
    requires j < |p| && IsHeader(header, p[j]) && j != j0
    ensures j < j0
    ensures NextHeader(header, p + [l], j + 1) == NextHeader(header, p, j + 1) <= j0
    ensures (p + [l])[j + 1..NextHeader(header, p, j + 1)] == p[j + 1..NextHeader(header, p, j + 1)]
  {
    ghost var isHeader := IsHeader(header, p[j]);
    assert j0 < j ==> !isHeader;
    NextHeaderExtend(header, p, l, j + 1);
  }

  /** A header line that is the last of its name after one more line was already so before it. */
  lemma StillLastOfItsName(header: string -> Option<Header>, p: seq<string>, l: string, j: nat)
    requires j < |p| && LastOfItsName(header, p + [l], j)
    ensures LastOfItsName(header, p, j)
  {
    var ls := p + [l];
    assert ls[j] == p[j];
    forall m | j < m < |p| ensures ls[m] == p[m] { }
  }

  lemma ContinuationAt(header: string -> Option<Header>, p: seq<string>, l: string,
                       parsed: map<string, string>, key: string, j0: nat, j: nat)
    requires EntriesFollowHeaders(header, p, parsed)
    requires j0 < |p| && IsHeader(header, p[j0]) && NextHeader(header, p, j0 + 1) == |p|
    requires key == header(p[j0]).value.name
    requires key in parsed
    requires IsIndented(l)
    requires j < |p| + 1 && LastOfItsName(header, p + [l], j)
    ensures header((p + [l])[j]).value.name in parsed[key := parsed[key] + "\n" + l]
    ensures parsed[key := parsed[key] + "\n" + l][header((p + [l])[j]).value.name]
              == header((p + [l])[j]).value.rest + Body((p + [l])[j + 1..NextHeader(header, p + [l], j + 1)])
  {
    var ls, n := p + [l], |p|;
    assert j < n && ls[j] == p[j];
    StillLastOfItsName(header, p, l, j);
    if j == j0 {
      assert LastOfItsName(header, p, j0);
      ContinuationOwnEntry(header, p, l, j0, parsed[key]);
    } else {
      ContinuationOtherEntry(header, p, l, parsed, key, j0, j);
    }
  }

  /** The entry of the last header line gains the indented line. */
  lemma ContinuationOwnEntry(header: string -> Option<Header>, p: seq<string>, l: string, j0: nat, entry: string)
    requires j0 < |p| && IsHeader(header, p[j0]) && NextHeader(header, p, j0 + 1) == |p|
    requires IsIndented(l)
    requires entry == header(p[j0]).value.rest + Body(p[j0 + 1..|p|])
    ensures entry + "\n" + l
              == header(p[j0]).value.rest + Body((p + [l])[j0 + 1..NextHeader(header, p + [l], j0 + 1)])
  {
    var ls, n := p + [l], |p|;
    var h := header(p[j0]).value;
    var b := Body(p[j0 + 1..n]);
    ContinuedLastEntry(header, p, l, j0);
    assert (h.rest + b) + "\n" + l == h.rest + (b + ("\n" + l));
    assert NextHeader(header, ls, j0 + 1) == n + 1;
    assert Body(ls[j0 + 1..n + 1]) == b + ("\n" + l);
  }

  /** The entries of earlier header lines stay as they were. */
  lemma ContinuationOtherEntry(header: string -> Option<Header>, p: seq<string>, l: string,
                               parsed: map<string, string>, key: string, j0: nat, j: nat)
    requires EntriesFollowHeaders(header, p, parsed)
    requires j0 < |p| && IsHeader(header, p[j0]) && NextHeader(header, p, j0 + 1) == |p|
    requires key == header(p[j0]).value.name
    requires IsIndented(l)
    requires j < |p| && j != j0 && LastOfItsName(header, p, j) && LastOfItsName(header, p + [l], j)
    ensures header(p[j]).value.name != key
    ensures parsed[header(p[j]).value.name]
              == header(p[j]).value.rest + Body((p + [l])[j + 1..NextHeader(header, p + [l], j + 1)])
  {
    var ls := p + [l];
    var h := header(p[j]).value;
    var e := NextHeader(header, p, j + 1);
    assert parsed[h.name] == h.rest + Body(p[j + 1..e]);
    ClosedEntry(header, p, l, j0, j);
    assert ls[j0] == p[j0];
    assert NextHeader(header, ls, j + 1) == e;
    assert ls[j + 1..e] == p[j + 1..e];
  }

  /** An indented line extends the entry of the last header line and no other. */
  lemma EntriesAfterContinuation(header: string -> Option<Header>, p: seq<string>, l: string,
                                 parsed: map<string, string>, key: string)
    requires EntriesFollowHeaders(header, p, parsed)
    requires KeyIsLastHeader(header, p, key)
    requires HeaderBefore(header, p, |p|)
    requires key in parsed
    requires IsIndented(l)
    ensures EntriesFollowHeaders(header, p + [l], parsed[key := parsed[key] + "\n" + l])
  {
    var ls, n := p + [l], |p|;
    var parsed' := parsed[key := parsed[key] + "\n" + l];
    LastHeaderExists(header, p);
    var j0 :| 0 <= j0 < n && IsHeader(header, p[j0]) && NextHeader(header, p, j0 + 1) == n;
    assert key == header(p[j0]).value.name;
    forall j | 0 <= j < n + 1 && LastOfItsName(header, ls, j)
      ensures header(ls[j]).value.name in parsed'
      ensures parsed'[header(ls[j]).value.name]
              == header(ls[j]).value.rest + Body(ls[j + 1..NextHeader(header, ls, j + 1)])
    {
      ContinuationAt(header, p, l, parsed, key, j0, j);
    }
  }

  /** An indented line after some header line appends itself to the current entry. */
  lemma ContinuationLine(header: string -> Option<Header>, p: seq<string>, l: string, st: ParseState)
    requires Describes(header, p, st)
    requires IsIndented(l) && st.key in st.parsed
    ensures Describes(header, p + [l], st.(parsed := st.parsed[st.key := st.parsed[st.key] + "\n" + l]))
  {
    HeaderBeforeExtend(header, p, l);
    HeaderNamesExtend(header, p, l);
    KeyAfterNonHeader(header, p, l, st.key);
    EntriesAfterContinuation(header, p, l, st.parsed, st.key);
  }

  /** After a header line, the current key is that line's name. */
  lemma KeyAfterHeader(header: string -> Option<Header>, p: seq<string>, l: string)
    requires IsHeader(header, l)
    ensures KeyIsLastHeader(header, p + [l], header(l).value.name)
  {
    var ls, n := p + [l], |p|;
    forall j | 0 <= j < n + 1 && IsHeader(header, ls[j]) && NextHeader(header, ls, j + 1) == n + 1
      ensures header(l).value.name == header(ls[j]).value.name
    {
      if j < n {
        NextHeaderExtend(header, p, l, j + 1);
      }
      assert j == n && ls[j] == l;
    }
  }

  /** A header line starts its interface's entry afresh and closes every other one. */
  lemma EntriesAfterHeader(header: string -> Option<Header>, p: seq<string>, l: string, parsed: map<string, string>)
    requires EntriesFollowHeaders(header, p, parsed)
    requires IsHeader(header, l)
    ensures EntriesFollowHeaders(header, p + [l], parsed[header(l).value.name := header(l).value.rest])
  {
    var ls, n := p + [l], |p|;
    var h := header(l).value;
    var parsed' := parsed[h.name := h.rest];
    forall j | 0 <= j < n + 1 && LastOfItsName(header, ls, j)
      ensures header(ls[j]).value.name in parsed'
      ensures parsed'[header(ls[j]).value.name]
              == header(ls[j]).value.rest + Body(ls[j + 1..NextHeader(header, ls, j + 1)])
    {
      if j == n {
        assert ls[j] == l;
        assert ls[j + 1..NextHeader(header, ls, j + 1)] == [];
      } else {
        assert ls[j] == p[j];
        assert ls[n] == l;
        assert header(ls[j]).value.name != h.name;
        assert LastOfItsName(header, p, j) by {
          forall m | j < m < n ensures ls[m] == p[m] { }
        }
        NextHeaderExtend(header, p, l, j + 1);
        var e := NextHeader(header, p, j + 1);
        assert ls[j + 1..e] == p[j + 1..e];
      }
    }
  }

  /** A header line records the rest of its text under its name and makes that name current. */
  lemma HeaderLine(header: string -> Option<Header>, p: seq<string>, l: string, st: ParseState)
    requires Describes(header, p, st)
    requires IsHeader(header, l)
    ensures Describes(header, p + [l], ParseState(header(l).value.name, st.parsed[header(l).value.name := header(l).value.rest]))
  {
    HeaderBeforeExtend(header, p, l);
    HeaderNamesExtend(header, p, l);
    KeyAfterHeader(header, p, l);
    EntriesAfterHeader(header, p, l, st.parsed);
  }

  lemma NoOrphanLinesExtend(header: string -> Option<Header>, p: seq<string>, l: string)
    ensures NoOrphanLines(header, p + [l])
      == (NoOrphanLines(header, p) && (IsIndented(l) ==> HeaderBefore(header, p, |p|)))
  {
    var ls := p + [l];
    HeaderBeforeExtend(header, p, l);
    assert ls[|p|] == l;
    if NoOrphanLines(header, ls) {
      forall i | 0 <= i < |p| && IsIndented(p[i]) ensures HeaderBefore(header, p, i) {
        assert ls[i] == p[i];
      }
    }
    if NoOrphanLines(header, p) && (IsIndented(l) ==> HeaderBefore(header, p, |p|)) {
      forall i | 0 <= i < |ls| && IsIndented(ls[i]) ensures HeaderBefore(header, ls, i) {
        if i < |p| {
          assert ls[i] == p[i];
        }
      }
    }
  }

  /**
   * What `parse_interfaces` computes from a list of lines: it fails exactly when an
   * indented line comes before every header line (`OnlyEmptyKeyMissing` gives the
   * error: the KeyError of the empty key); otherwise its
   * `parsed` has one entry per header name, each made of the rest of that name's last
   * header line and the indented lines that follow it up to the next header line.
   */
  lemma {:induction false} RunDescribed(header: string -> Option<Header>, lines: seq<string>)
    ensures Run(header, lines).Success? <==> NoOrphanLines(header, lines)
    ensures Run(header, lines).Success? ==> Describes(header, lines, Run(header, lines).value)
    decreases |lines|
  {
    if |lines| == 0 {
      assert HeaderNames(header, lines) == {};
    } else {
      var n := |lines| - 1;
      var p, l := lines[..n], lines[n];
      assert lines == p + [l];
      RunDescribed(header, p);
      NoOrphanLinesExtend(header, p, l);
      match Run(header, p)
      case Failure(e) =>
      case Success(st) =>
        if |l| == 0 || (!IsIndented(l) && header(l).None?) {
          IgnoredLine(header, p, l, st);
        } else if IsIndented(l) {
          if st.key in st.parsed {
            assert HeaderBefore(header, p, |p|);
            ContinuationLine(header, p, l, st);
          } else {
            if HeaderBefore(header, p, |p|) {
              KeyIsEntry(header, p, st);
            }
          }
        } else {
          HeaderLine(header, p, l, st);
        }
    }
  }

  /** The failure condition of `RunDescribed` alone. */
  lemma SucceedsWithoutOrphans(header: string -> Option<Header>, lines: seq<string>)
    ensures Run(header, lines).Success? <==> NoOrphanLines(header, lines)
  {
    RunDescribed(header, lines);
  }
}
