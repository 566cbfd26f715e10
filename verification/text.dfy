/** String helpers with the semantics of the Rust standard-library calls the
    parser uses: `str::starts_with`, `str::find`, `str::split` and
    `str::split_terminator` with a single-character pattern. */
module Text {
  import opened Wrappers

  const Tab: char := '\t'

  predicate StartsWith(s: string, c: char) {
    |s| > 0 && s[0] == c
  }

  /** Position of the first `c` in `s`, or None. */
  function Find(s: string, c: char): (r: Option<nat>)
    ensures r.None? <==> c !in s
    ensures r.Some? ==> r.value < |s| && s[r.value] == c && c !in s[..r.value]
  {
    if |s| == 0 then None
    else if s[0] == c then Some(0)
    else
      match Find(s[1..], c)
      case None => None
      case Some(i) =>
        assert s[1..][..i] == s[1..i + 1];
        Some(i + 1)
  }

  /** `s.split(c)`: the pieces between occurrences of `c`; always at least one. */
  function Split(s: string, c: char): (r: seq<string>)
    ensures |r| >= 1
    ensures forall i :: 0 <= i < |r| ==> c !in r[i]
    decreases |s|
  {
    if |s| == 0 then [""]
    else
      var rest := Split(s[1..], c);
      if s[0] == c then [""] + rest
      else [[s[0]] + rest[0]] + rest[1..]
  }

  /** The pieces glued back together with `c` between neighbours. */
  function Join(parts: seq<string>, c: char): string
    requires |parts| >= 1
  {
    if |parts| == 1 then parts[0] else parts[0] + [c] + Join(parts[1..], c)
  }

  /** `s.split_terminator(c)`: like `Split`, but an empty final piece is dropped. */
  function SplitTerminator(s: string, c: char): (r: seq<string>)
    ensures forall i :: 0 <= i < |r| ==> c !in r[i]
    ensures r == Split(s, c) || r + [""] == Split(s, c)
  {
    var p := Split(s, c);
    if p[|p| - 1] == "" then p[..|p| - 1] else p
  }

  /** Splitting loses nothing: joining the pieces rebuilds the string. */
  lemma {:induction false} JoinSplit(s: string, c: char)
    ensures Join(Split(s, c), c) == s
    decreases |s|
  {
    // The steps below need only the one-step equations of the two functions.
    hide Split, Join;
    if |s| == 0 {
      SplitEmpty(c);
      JoinSingle([""], c);
    } else {
      JoinSplit(s[1..], c);
      var rest := Split(s[1..], c);
      SplitStep(s, c);
      var p := Split(s, c);
      if s[0] == c {
        JoinStep(p, c);
        assert p[1..] == rest;
        assert s == [c] + s[1..];
      } else if |rest| == 1 {
        JoinSingle(rest, c);
        JoinSingle(p, c);
        assert s == [s[0]] + s[1..];
      } else {
        JoinStep(rest, c);
        JoinStep(p, c);
        assert p[1..] == rest[1..];
        assert s == [s[0]] + s[1..];
      }
    }
  }

  lemma SplitEmpty(c: char)
    ensures Split("", c) == [""]
  {
  }

  /** One step of `Split` on a non-empty string. */
  lemma SplitStep(s: string, c: char)
    requires |s| > 0
    ensures Split(s, c) == (if s[0] == c then [""] + Split(s[1..], c)
                           else [[s[0]] + Split(s[1..], c)[0]] + Split(s[1..], c)[1..])
  {
  }

  lemma JoinSingle(parts: seq<string>, c: char)
    requires |parts| == 1
    ensures Join(parts, c) == parts[0]
  {
  }

  /** One step of `Join` on two or more pieces. */
  lemma JoinStep(parts: seq<string>, c: char)
    requires |parts| > 1
    ensures Join(parts, c) == parts[0] + [c] + Join(parts[1..], c)
  {
  }

  /** Seven columns joined with tabs. */
  lemma JoinSeven(a: string, b: string, c: string, d: string, e: string, f: string, g: string)
    ensures Join([a, b, c, d, e, f, g], Tab)
         == a + [Tab] + b + [Tab] + c + [Tab] + d + [Tab] + e + [Tab] + f + [Tab] + g
  {
    // The steps below need only the one-step equations of `Join`.
    hide Join;
    var cols := [a, b, c, d, e, f, g];
    JoinSingle(cols[6..], Tab);
    JoinStep(cols[5..], Tab);
    JoinStep(cols[4..], Tab);
    JoinStep(cols[3..], Tab);
    JoinStep(cols[2..], Tab);
    JoinStep(cols[1..], Tab);
    JoinStep(cols, Tab);
    assert cols[1..][1..] == cols[2..] && cols[2..][1..] == cols[3..] && cols[3..][1..] == cols[4..];
    assert cols[4..][1..] == cols[5..] && cols[5..][1..] == cols[6..];
  }

  /** Splitting a string that starts with a `c`-free word `w` puts `w` in front of the first piece. */
  lemma {:induction false} SplitPrefix(w: string, t: string, c: char)
    requires c !in w
    ensures Split(w + t, c) == [w + Split(t, c)[0]] + Split(t, c)[1..]
    decreases |w|
  {
    if |w| > 0 {
      assert (w + t)[1..] == w[1..] + t;
      SplitPrefix(w[1..], t, c);
      assert [w[0]] + (w[1..] + Split(t, c)[0]) == w + Split(t, c)[0];
    } else {
      assert w + t == t;
      var p := Split(t, c);
      assert p == [p[0]] + p[1..];
      assert w + p[0] == p[0];
    }
  }

  /** Joining `c`-free pieces and splitting again returns the pieces. */
  lemma {:induction false} SplitJoin(parts: seq<string>, c: char)
    requires |parts| >= 1
    requires forall i :: 0 <= i < |parts| ==> c !in parts[i]
    ensures Split(Join(parts, c), c) == parts
    decreases |parts|
  {
    if |parts| == 1 {
      SplitPrefix(parts[0], "", c);
      assert parts[0] + "" == parts[0];
    } else {
      var j := Join(parts[1..], c);
      SplitJoin(parts[1..], c);
      assert Join(parts, c) == parts[0] + ([c] + j);
      SplitPrefix(parts[0], [c] + j, c);
      assert ([c] + j)[1..] == j;
      assert Split([c] + j, c) == [""] + parts[1..];
      assert parts[0] + "" == parts[0];
    }
  }

  /** Joining `c`-free pieces whose last one is non-empty and splitting with
      `split_terminator` semantics returns the pieces. */
  lemma SplitTerminatorJoin(parts: seq<string>, c: char)
    requires |parts| >= 1
    requires forall i :: 0 <= i < |parts| ==> c !in parts[i]
    requires parts[|parts| - 1] != ""
    ensures SplitTerminator(Join(parts, c), c) == parts
  {
    SplitJoin(parts, c);
  }
}
