/**
 * Python's `str.split('\n')` and its inverse `'\n'.join`, on which the
 * interface parser's line loop (asa_facts.py, `parse_interfaces`) runs.
 */
module Lines {

  /** The position of the first line break. */
  function FirstBreak(s: string): (i: nat)
    requires '\n' in s
    ensures i < |s| && s[i] == '\n'
    ensures '\n' !in s[..i]
  {
    if s[0] == '\n' then 0
    else
      var i := 1 + FirstBreak(s[1..]);
      assert s[..i] == [s[0]] + s[1..][..i - 1];
      i
  }

  /** A break preceded by no other break is the first one. */
  lemma {:induction false} FirstBreakUnique(s: string, k: nat)
    requires k < |s| && s[k] == '\n' && '\n' !in s[..k]
    ensures FirstBreak(s) == k
  {
    if k > 0 {
      assert s[0] == s[..k][0];
      assert s[1..][..k - 1] == s[..k][1..];
      FirstBreakUnique(s[1..], k - 1);
    }
  }

  /** `'\n'.join(lines)`. */
  function Join(lines: seq<string>): string {
    if |lines| == 0 then ""
    else if |lines| == 1 then lines[0]
    else lines[0] + "\n" + Join(lines[1..])
  }

  predicate NoBreaks(lines: seq<string>) {
    forall i | 0 <= i < |lines| :: '\n' !in lines[i]
  }

  /**
   * `s.split('\n')`: the pieces between the breaks, empty ones included, so that
   * there is always at least one piece and joining them gives `s` back.
   */
  function Split(s: string): (lines: seq<string>)
    ensures |lines| > 0
    ensures NoBreaks(lines)
    ensures Join(lines) == s
    decreases |s|
  {
    if '\n' !in s then [s]
    else
      var i := FirstBreak(s);
      var rest := Split(s[i + 1..]);
      assert ([s[..i]] + rest)[1..] == rest;
      assert s == s[..i] + "\n" + s[i + 1..];
      [s[..i]] + rest
  }

  /** Splitting undoes joining any non-empty list of break-free lines. */
  lemma {:induction false} SplitJoin(lines: seq<string>)
    requires |lines| > 0 && NoBreaks(lines)
    ensures Split(Join(lines)) == lines
    decreases |lines|
  {
    if |lines| > 1 {
      var s := Join(lines);
      var k := |lines[0]|;
      assert s == lines[0] + "\n" + Join(lines[1..]);
      assert s[..k] == lines[0];
      assert s[k] == '\n';
      FirstBreakUnique(s, k);
      assert s[k + 1..] == Join(lines[1..]);
      assert NoBreaks(lines[1..]) by {
        forall i | 0 <= i < |lines| - 1 ensures '\n' !in lines[1..][i] {
          assert lines[1..][i] == lines[i + 1];
        }
      }
      SplitJoin(lines[1..]);
      assert lines == [lines[0]] + lines[1..];
    }
  }
}
