/** The `@key:value` metadata header of a genotype file and the genotype
    symbol encodings it defines (`Metadata` in src/geneobject.rs). */
module Meta {
  import opened Wrappers
  import opened Types
  import opened Text

  /** The parsed metadata; `heterozygous` and `unknown` have defaults. */
  datatype Metadata = Metadata(
    name: string,
    maternal: string,
    paternal: string,
    datasetType: string,
    heterozygous: string,
    unknown: string)

  /** Classifies one header line: a `#` comment and any line not starting with
      `@` carry nothing; `@key:value` is split at its first `:`; a `@` line
      without any `:` is an error. */
  function ParseLine(line: string): (r: Result<Option<(string, string)>, Error>)
    ensures StartsWith(line, '#') || !StartsWith(line, '@') ==> r == Ok(None)
    ensures StartsWith(line, '@') ==> (r.Err? <==> ':' !in line)
    ensures r.Err? ==> r.error == MissingColon
    ensures r.Ok? && r.value.Some? ==>
      && StartsWith(line, '@')
      && ':' !in r.value.value.0
  {
    if StartsWith(line, '#') then Ok(None)
    else if StartsWith(line, '@') then
      match Find(line, ':')
      case None => Err(MissingColon)
      case Some(sep) =>
        assert line[..sep] == line[..1] + line[1..sep];
        Ok(Some((line[1..sep], line[sep + 1..])))
    else Ok(None)
  }

  /** A parsed field loses nothing: the line is `@`, the key, `:`, the value. */
  lemma ParseLineRebuilds(line: string)
    requires ParseLine(line).Ok? && ParseLine(line).value.Some?
    ensures var (key, val) := ParseLine(line).value.value;
      line == "@" + key + ":" + val
  {
    var sep := Find(line, ':').value;
    assert line == [line[0]] + line[1..sep] + [line[sep]] + line[sep + 1..];
  }

  /** The inverse direction: every `@key:value` line with a colon-free key parses to `(key, value)`. */
  lemma ParseLineOfField(key: string, val: string)
    requires ':' !in key
    ensures ParseLine("@" + key + ":" + val) == Ok(Some((key, val)))
  {
    var line := "@" + key + ":" + val;
    assert line[|key| + 1] == ':';
    var sep := Find(line, ':').value;
    assert line[1..sep] == key;
    assert line[sep + 1..] == val;
  }

  /** The lines of the source's own parsing test: a commented-out field and a
      comment carry nothing, the two fields parse to their key and value. */
  lemma ParseLineExamples()
    ensures ParseLine("#@type:intercross") == Ok(None)
    ensures ParseLine("#abbreviation of maternal or paternal parents") == Ok(None)
    ensures ParseLine("@name:BXD") == Ok(Some(("name", "BXD")))
  {
    CommentLine("#@type:intercross");
    CommentLine("#abbreviation of maternal or paternal parents");
    FieldLine("name", "BXD", "@name:BXD");
  }

  lemma ParseLineMatExample()
    ensures ParseLine("@mat:B6") == Ok(Some(("mat", "B6")))
  {
    FieldLine("mat", "B6", "@mat:B6");
  }

  lemma FieldLine(key: string, val: string, line: string)
    requires |line| == |key| + |val| + 2 && line[0] == '@' && line[|key| + 1] == ':'
    requires line[1..|key| + 1] == key && line[|key| + 2..] == val && ':' !in key
    ensures ParseLine(line) == Ok(Some((key, val)))
  {
    assert line == "@" + key + ":" + val;
    ParseLineOfField(key, val);
  }

  lemma CommentLine(line: string)
    requires |line| > 0 && line[0] == '#'
    ensures ParseLine(line) == Ok(None)
  {
  }

  /** The metadata keys `from_lines` recognises; every other key is ignored. */
  const RecognisedKeys: set<string> := {"name", "mat", "pat", "type", "het", "unk"}

  /** What the metadata lines have set so far; an absent entry was never set. */
  datatype Fields = Fields(
    name: Option<string>,
    mat: Option<string>,
    pat: Option<string>,
    typ: Option<string>,
    het: Option<string>,
    unk: Option<string>)

  /** The entry of `f` belonging to a recognised key. */
  function Field(f: Fields, key: string): Option<string> {
    if key == "name" then f.name
    else if key == "mat" then f.mat
    else if key == "pat" then f.pat
    else if key == "type" then f.typ
    else if key == "het" then f.het
    else if key == "unk" then f.unk
    else None
  }

  /** Records one `@key:value` line: a recognised key overrides its entry, any other key is ignored. */
  function Absorb(f: Fields, key: string, val: string): (r: Fields)
    ensures forall k :: k in RecognisedKeys ==> Field(r, k) == if k == key then Some(val) else Field(f, k)
  {
    if key == "name" then f.(name := Some(val))
    else if key == "mat" then f.(mat := Some(val))
    else if key == "pat" then f.(pat := Some(val))
    else if key == "type" then f.(typ := Some(val))
    else if key == "het" then f.(het := Some(val))
    else if key == "unk" then f.(unk := Some(val))
    else f
  }

  /** The loop of `from_lines`: the lines are absorbed in order, the first malformed line aborts. */
  function Collect(lines: seq<string>): Result<Fields, Error>
    decreases |lines|
  {
    if |lines| == 0 then Ok(Fields(None, None, None, None, None, None))
    else
      var f :- Collect(lines[..|lines| - 1]);
      var p :- ParseLine(lines[|lines| - 1]);
      Ok(if p.Some? then Absorb(f, p.value.0, p.value.1) else f)
  }

  /** `from_lines`: the required keys must all be present; `het` defaults to "H", `unk` to "U". */
  function FromLines(lines: seq<string>): (r: Result<Metadata, Error>)
    ensures r.Err? ==> r.error == MissingColon || r.error == MissingMetadata
    ensures r.Ok? ==> AllParse(lines)
  {
    CollectOkIff(lines);
    CollectErrorIsMissingColon(lines);
    var f :- Collect(lines);
    if f.name.None? || f.mat.None? || f.pat.None? || f.typ.None? then Err(MissingMetadata)
    else Ok(Metadata(f.name.value, f.mat.value, f.pat.value, f.typ.value, f.het.GetOr("H"), f.unk.GetOr("U")))
  }

  /** Line `line` is a well-formed `@key:...` line. */
  predicate SetsKey(line: string, key: string) {
    var p := ParseLine(line);
    p.Ok? && p.value.Some? && p.value.value.0 == key
  }

  /** No line of `lines` sets `key`. */
  predicate NeverSet(lines: seq<string>, key: string) {
    forall i :: 0 <= i < |lines| ==> !SetsKey(lines[i], key)
  }

  /** `val` is what the last line setting `key` gives it. */
  ghost predicate LastSetting(lines: seq<string>, key: string, val: string) {
    exists i :: 0 <= i < |lines| && ParseLine(lines[i]) == Ok(Some((key, val))) &&
      forall j :: i < j < |lines| ==> !SetsKey(lines[j], key)
  }

  /** Every line parses. */
  predicate AllParse(lines: seq<string>) {
    forall i :: 0 <= i < |lines| ==> ParseLine(lines[i]).Ok?
  }

  /** The fold fails exactly when some line is malformed. */
  lemma {:induction false} CollectOkIff(lines: seq<string>)
    ensures Collect(lines).Ok? <==> AllParse(lines)
    decreases |lines|
  {
    if |lines| > 0 {
      var init := lines[..|lines| - 1];
      CollectOkIff(init);
      assert forall i :: 0 <= i < |init| ==> init[i] == lines[i];
    }
  }

  /** The fold's only failure is a `@` line without a colon. */
  lemma {:induction false} CollectErrorIsMissingColon(lines: seq<string>)
    ensures Collect(lines).Err? ==> Collect(lines).error == MissingColon
    decreases |lines|
  {
    if |lines| > 0 {
      CollectErrorIsMissingColon(lines[..|lines| - 1]);
    }
  }

  /** The fold agrees with the declarative reading: each recognised entry is
      the value of the LAST line setting it, or absent when no line sets it. */
  lemma {:induction false} CollectField(lines: seq<string>, key: string)
    requires key in RecognisedKeys
    requires Collect(lines).Ok?
    ensures var v := Field(Collect(lines).value, key);
      (v.None? ==> NeverSet(lines, key)) && (v.Some? ==> LastSetting(lines, key, v.value))
    decreases |lines|
  {
    // The steps below need only the one-line lemmas, not the bodies.
    hide Collect, ParseLine;
    if |lines| > 0 {
      var init := lines[..|lines| - 1];
      var last := lines[|lines| - 1];
      CollectStep(lines);
      CollectField(init, key);
      var p := ParseLine(last).value;
      if p.Some? && p.value.0 == key {
        LastLineSets(lines, key, p.value.1);
      } else {
        var v := Field(Collect(init).value, key);
        if v.Some? {
          LastLineKeeps(lines, key, v.value);
        } else {
          LastLineKeepsNever(lines, key);
        }
      }
    } else {
      CollectNone(lines);
    }
  }

  /** No lines set nothing. */
  lemma CollectNone(lines: seq<string>)
    requires |lines| == 0
    ensures Collect(lines) == Ok(Fields(None, None, None, None, None, None))
  {
  }

  /** One line of the fold: the lines before it fold, the line parses, and a
      field line overrides only its own key. */
  lemma CollectStep(lines: seq<string>)
    requires |lines| > 0 && Collect(lines).Ok?
    ensures Collect(lines[..|lines| - 1]).Ok? && ParseLine(lines[|lines| - 1]).Ok?
    ensures var p := ParseLine(lines[|lines| - 1]).value;
      forall key :: key in RecognisedKeys ==>
        Field(Collect(lines).value, key) ==
          if p.Some? && p.value.0 == key then Some(p.value.1) else Field(Collect(lines[..|lines| - 1]).value, key)
  {
  }

  /** A last line setting `key` gives `key` its last setting. */
  lemma LastLineSets(lines: seq<string>, key: string, val: string)
    requires |lines| > 0 && ParseLine(lines[|lines| - 1]) == Ok(Some((key, val)))
    ensures LastSetting(lines, key, val)
  {
  }

  /** A last line not setting `key` keeps the last setting before it. */
  lemma LastLineKeeps(lines: seq<string>, key: string, val: string)
    requires |lines| > 0 && !SetsKey(lines[|lines| - 1], key)
    requires LastSetting(lines[..|lines| - 1], key, val)
    ensures LastSetting(lines, key, val)
  {
    var init := lines[..|lines| - 1];
    var i :| 0 <= i < |init| && ParseLine(init[i]) == Ok(Some((key, val))) &&
      forall j :: i < j < |init| ==> !SetsKey(init[j], key);
    assert init[i] == lines[i];
    forall j | i < j < |lines|
      ensures !SetsKey(lines[j], key)
    {
      if j < |init| {
        assert init[j] == lines[j];
      }
    }
  }

  /** A last line not setting `key` leaves it never set. */
  lemma LastLineKeepsNever(lines: seq<string>, key: string)
    requires |lines| > 0 && !SetsKey(lines[|lines| - 1], key)
    requires NeverSet(lines[..|lines| - 1], key)
    ensures NeverSet(lines, key)
  {
    var init := lines[..|lines| - 1];
    forall i | 0 <= i < |lines|
      ensures !SetsKey(lines[i], key)
    {
      if i < |init| {
        assert init[i] == lines[i];
      }
    }
  }

  /** A key that has a last setting was set. */
  lemma SetIsNotNever(lines: seq<string>, key: string, val: string)
    requires LastSetting(lines, key, val)
    ensures !NeverSet(lines, key)
  {
    var i :| 0 <= i < |lines| && ParseLine(lines[i]) == Ok(Some((key, val))) &&
      forall j :: i < j < |lines| ==> !SetsKey(lines[j], key);
    assert SetsKey(lines[i], key);
  }

  /** `from_lines` fails exactly when a line is malformed or one of `name`,
      `mat`, `pat`, `type` is never set. */
  lemma FromLinesErrors(lines: seq<string>)
    ensures !AllParse(lines) ==> FromLines(lines).Err?
    ensures AllParse(lines) ==>
      (FromLines(lines).Err? <==>
        NeverSet(lines, "name") || NeverSet(lines, "mat") || NeverSet(lines, "pat") || NeverSet(lines, "type"))
  {
    CollectOkIff(lines);
    if AllParse(lines) {
      var f := Collect(lines).value;
      CollectField(lines, "name");
      CollectField(lines, "mat");
      CollectField(lines, "pat");
      CollectField(lines, "type");
      if f.name.Some? { SetIsNotNever(lines, "name", f.name.value); }
      if f.mat.Some? { SetIsNotNever(lines, "mat", f.mat.value); }
      if f.pat.Some? { SetIsNotNever(lines, "pat", f.pat.value); }
      if f.typ.Some? { SetIsNotNever(lines, "type", f.typ.value); }
    }
  }

  /** `from_lines` as the metadata format promises it: each field holds the
      value of the LAST line setting it (a later `@key` line overrides an
      earlier one), and `het`/`unk` default to "H"/"U" when never set. */
  lemma FromLinesValues(lines: seq<string>)
    requires FromLines(lines).Ok?
    ensures var m := FromLines(lines).value;
      && LastSetting(lines, "name", m.name)
      && LastSetting(lines, "mat", m.maternal)
      && LastSetting(lines, "pat", m.paternal)
      && LastSetting(lines, "type", m.datasetType)
      && (LastSetting(lines, "het", m.heterozygous) || (NeverSet(lines, "het") && m.heterozygous == "H"))
      && (LastSetting(lines, "unk", m.unknown) || (NeverSet(lines, "unk") && m.unknown == "U"))
  {
    hide Collect, ParseLine, Absorb;
    CollectField(lines, "name");
    CollectField(lines, "mat");
    CollectField(lines, "pat");
    CollectField(lines, "type");
    CollectField(lines, "het");
    CollectField(lines, "unk");
  }

  /** The metadata symbol that stands for genotype `g`. */
  function SymbolOf(md: Metadata, g: Genotype): string {
    match g
    case Mat => md.maternal
    case Pat => md.paternal
    case Het => md.heterozygous
    case Unk => md.unknown
  }

  /** The order in which `parse_genotype` tries the symbols. */
  function Priority(g: Genotype): nat {
    match g
    case Mat => 0
    case Pat => 1
    case Het => 2
    case Unk => 3
  }

  /** `parse_genotype`: the first genotype, in the order mat, pat, het, unk,
      whose symbol equals `sym`, with its dosage; any other symbol is an error. */
  function ParseGenotype(md: Metadata, sym: string): (r: Result<Slot, Error>)
    ensures r.Ok? <==> sym in {md.maternal, md.paternal, md.heterozygous, md.unknown}
    ensures r.Ok? ==>
      && SymbolOf(md, r.value.tag) == sym
      && r.value.dosage == Encoding(r.value.tag)
      && forall g :: Priority(g) < Priority(r.value.tag) ==> SymbolOf(md, g) != sym
    ensures r.Err? ==> r.error == UnknownSymbol(sym)
  {
    if sym == md.maternal then Ok(Slot(Mat, -1.0))
    else if sym == md.paternal then Ok(Slot(Pat, 1.0))
    else if sym == md.heterozygous then Ok(Slot(Het, 0.0))
    else if sym == md.unknown then Ok(Slot(Unk, 99.0))
    else Err(UnknownSymbol(sym))
  }

  /** `parse_dominance`: 0 for the homozygous symbols, 1 for het and unknown,
      with the same symbol priority and the same failures as `parse_genotype`. */
  function ParseDominance(md: Metadata, sym: string): (r: Result<real, Error>)
    ensures ParseGenotype(md, sym).Ok? ==> r == Ok(DominanceCode(ParseGenotype(md, sym).value.tag))
    ensures ParseGenotype(md, sym).Err? ==> r == Err(UnknownSymbol(sym))
  {
    if sym == md.maternal then Ok(0.0)
    else if sym == md.paternal then Ok(0.0)
    else if sym == md.heterozygous then Ok(1.0)
    else if sym == md.unknown then Ok(1.0)
    else Err(UnknownSymbol(sym))
  }

  /** The four symbols are pairwise different. */
  predicate DistinctSymbols(md: Metadata) {
    && md.maternal != md.paternal && md.maternal != md.heterozygous && md.maternal != md.unknown
    && md.paternal != md.heterozygous && md.paternal != md.unknown
    && md.heterozygous != md.unknown
  }

  /** With four distinct symbols, parsing the symbol of a genotype gives that genotype back. */
  lemma ParseSymbolRoundTrip(md: Metadata, g: Genotype)
    requires DistinctSymbols(md)
    ensures ParseGenotype(md, SymbolOf(md, g)) == Ok(Slot(g, Encoding(g)))
    ensures ParseDominance(md, SymbolOf(md, g)) == Ok(DominanceCode(g))
  {
  }

  /** One more line for the fold. */
  lemma CollectSnoc(pre: seq<string>, line: string)
    requires Collect(pre).Ok? && ParseLine(line).Ok?
    ensures var f, p := Collect(pre).value, ParseLine(line).value;
      Collect(pre + [line]) == Ok(if p.Some? then Absorb(f, p.value.0, p.value.1) else f)
  {
    assert (pre + [line])[..|pre|] == pre;
  }

  /** The fold over a prefix, one line longer than the one before. */
  lemma CollectPrefix(lines: seq<string>, i: nat)
    requires 0 < i <= |lines| && Collect(lines[..i - 1]).Ok? && ParseLine(lines[i - 1]).Ok?
    ensures var f, p := Collect(lines[..i - 1]).value, ParseLine(lines[i - 1]).value;
      Collect(lines[..i]) == Ok(if p.Some? then Absorb(f, p.value.0, p.value.1) else f)
  {
    assert lines[..i][..i - 1] == lines[..i - 1];
  }

  /** How each line of such a header parses. */
  lemma SixFieldLines(c: string, t: string, n: string, m: string, p: string, h: string, u: string)
    requires |c| > 0 && c[0] == '#'
    ensures ParseLine(c) == Ok(None)
    ensures ParseLine("@type:" + t) == Ok(Some(("type", t)))
    ensures ParseLine("@name:" + n) == Ok(Some(("name", n)))
    ensures ParseLine("@mat:" + m) == Ok(Some(("mat", m)))
    ensures ParseLine("@pat:" + p) == Ok(Some(("pat", p)))
    ensures ParseLine("@het:" + h) == Ok(Some(("het", h)))
    ensures ParseLine("@unk:" + u) == Ok(Some(("unk", u)))
  {
    hide ParseLine;
    CommentLine(c);
    PrefixedLine("type", "@type:", t);
    PrefixedLine("name", "@name:", n);
    PrefixedLine("mat", "@mat:", m);
    PrefixedLine("pat", "@pat:", p);
    PrefixedLine("het", "@het:", h);
    PrefixedLine("unk", "@unk:", u);
  }

  /** A line made of a key's `@key:` prefix and a value parses to the two. */
  lemma PrefixedLine(key: string, prefix: string, val: string)
    requires prefix == "@" + key + ":" && ':' !in key
    ensures ParseLine(prefix + val) == Ok(Some((key, val)))
  {
    assert prefix + val == "@" + key + ":" + val;
    ParseLineOfField(key, val);
  }

  /** A comment followed by one line for each of the six keys sets each
      entry to its line's value. */
  lemma CollectOfFields(c: string, t: string, n: string, m: string, p: string, h: string, u: string)
    requires |c| > 0 && c[0] == '#'
    ensures Collect([c, "@type:" + t, "@name:" + n, "@mat:" + m, "@pat:" + p, "@het:" + h, "@unk:" + u])
         == Ok(Fields(Some(n), Some(m), Some(p), Some(t), Some(h), Some(u)))
  {
    hide ParseLine;
    var lines := [c, "@type:" + t, "@name:" + n, "@mat:" + m, "@pat:" + p, "@het:" + h, "@unk:" + u];
    SixFieldLines(c, t, n, m, p, h, u);
    CollectFirstFour(lines, c, t, n, m);
    CollectPrefix(lines, 5);
    CollectPrefix(lines, 6);
    CollectPrefix(lines, 7);
    assert lines[..7] == lines;
  }

  /** The first four lines of such a header: the comment, `type`, `name`, `mat`. */
  lemma CollectFirstFour(lines: seq<string>, c: string, t: string, n: string, m: string)
    requires |lines| >= 4 && lines[0] == c && lines[1] == "@type:" + t
    requires lines[2] == "@name:" + n && lines[3] == "@mat:" + m
    requires ParseLine(c) == Ok(None)
    requires ParseLine("@type:" + t) == Ok(Some(("type", t)))
    requires ParseLine("@name:" + n) == Ok(Some(("name", n)))
    requires ParseLine("@mat:" + m) == Ok(Some(("mat", m)))
    ensures Collect(lines[..4]) == Ok(Fields(Some(n), Some(m), None, Some(t), None, None))
  {
    hide ParseLine;
    CollectNone(lines[..0]);
    CollectPrefix(lines, 1);
    CollectPrefix(lines, 2);
    CollectPrefix(lines, 3);
    CollectPrefix(lines, 4);
  }

  /** A comment followed by one line for each of the six keys parses to
      exactly those values. */
  lemma FromLinesOfFields(c: string, t: string, n: string, m: string, p: string, h: string, u: string)
    requires |c| > 0 && c[0] == '#'
    ensures FromLines([c, "@type:" + t, "@name:" + n, "@mat:" + m, "@pat:" + p, "@het:" + h, "@unk:" + u])
         == Ok(Metadata(n, m, p, t, h, u))
  {
    CollectOfFields(c, t, n, m, p, h, u);
  }

  /** A line that carries no field: a comment, or any line not starting with `@`. */
  predicate Blank(line: string) {
    StartsWith(line, '#') || !StartsWith(line, '@')
  }

  /** The first five lines of the test's layout: two blank lines, `type`,
      `name`, and a blank line. */
  lemma CollectLayoutFirstFive(c0: string, c1: string, t: string, n: string, c2: string)
    requires Blank(c0) && Blank(c1) && Blank(c2)
    ensures Collect([c0, c1, "@type:" + t, "@name:" + n, c2])
         == Ok(Fields(Some(n), None, None, Some(t), None, None))
  {
    // The steps below need only the one-line fold step.
    hide Collect, ParseLine;
    CollectNone([]);
    PrefixedLine("type", "@type:", t);
    PrefixedLine("name", "@name:", n);
    var s0: seq<string> := [];
    CollectSnoc(s0, c0);
    var s1 := s0 + [c0];
    CollectSnoc(s1, c1);
    var s2 := s1 + [c1];
    CollectSnoc(s2, "@type:" + t);
    var s3 := s2 + ["@type:" + t];
    CollectSnoc(s3, "@name:" + n);
    var s4 := s3 + ["@name:" + n];
    CollectSnoc(s4, c2);
    assert s4 + [c2] == [c0, c1, "@type:" + t, "@name:" + n, c2];
  }

  /** The layout of the source's metadata test: blank lines interleaved with
      the six field lines, and a column header at the end. Blank lines carry
      nothing, so the fields come out as the field lines set them. */
  lemma CollectOfLayout(c0: string, c1: string, t: string, n: string, c2: string, m: string,
                        p: string, c3: string, h: string, c4: string, u: string, hdr: string)
    requires Blank(c0) && Blank(c1) && Blank(c2) && Blank(c3) && Blank(c4) && Blank(hdr)
    ensures Collect([c0, c1, "@type:" + t, "@name:" + n, c2, "@mat:" + m, "@pat:" + p,
                     c3, "@het:" + h, c4, "@unk:" + u, hdr])
         == Ok(Fields(Some(n), Some(m), Some(p), Some(t), Some(h), Some(u)))
  {
    // The steps below need only the one-line fold step.
    hide Collect, ParseLine;
    CollectLayoutFirstFive(c0, c1, t, n, c2);
    PrefixedLine("mat", "@mat:", m);
    PrefixedLine("pat", "@pat:", p);
    PrefixedLine("het", "@het:", h);
    PrefixedLine("unk", "@unk:", u);
    var s5 := [c0, c1, "@type:" + t, "@name:" + n, c2];
    CollectSnoc(s5, "@mat:" + m);
    var s6 := s5 + ["@mat:" + m];
    CollectSnoc(s6, "@pat:" + p);
    var s7 := s6 + ["@pat:" + p];
    CollectSnoc(s7, c3);
    var s8 := s7 + [c3];
    CollectSnoc(s8, "@het:" + h);
    var s9 := s8 + ["@het:" + h];
    CollectSnoc(s9, c4);
    var s10 := s9 + [c4];
    CollectSnoc(s10, "@unk:" + u);
    var s11 := s10 + ["@unk:" + u];
    CollectSnoc(s11, hdr);
    assert s11 + [hdr] == [c0, c1, "@type:" + t, "@name:" + n, c2, "@mat:" + m, "@pat:" + p,
                           c3, "@het:" + h, c4, "@unk:" + u, hdr];
  }

  /** `from_lines` on the test's layout gives the six values of its field lines. */
  lemma FromLinesOfLayout(c0: string, c1: string, t: string, n: string, c2: string, m: string,
                          p: string, c3: string, h: string, c4: string, u: string, hdr: string)
    requires Blank(c0) && Blank(c1) && Blank(c2) && Blank(c3) && Blank(c4) && Blank(hdr)
    ensures FromLines([c0, c1, "@type:" + t, "@name:" + n, c2, "@mat:" + m, "@pat:" + p,
                       c3, "@het:" + h, c4, "@unk:" + u, hdr])
         == Ok(Metadata(n, m, p, t, h, u))
  {
    CollectOfLayout(c0, c1, t, n, c2, m, p, c3, h, c4, u, hdr);
  }

  /** The source's metadata test, all twelve lines: the comments between the
      fields and the trailing column header carry nothing, and the fields come
      out as set.  The header line is written in pieces; joined, it is the
      test's tab-separated `Chr Locus cM BXD1 … BXD42`. */
  lemma FromLinesExample()
    ensures var header := "Chr" + "\tLocus\tcM\tBXD1\tBXD2\tBXD5" + "\tBXD6\tBXD8\tBXD9\tBXD11"
      + "\tBXD12\tBXD13\tBXD14\tBXD15" + "\tBXD16\tBXD18\tBXD19\tBXD20"
      + "\tBXD21\tBXD22\tBXD23\tBXD24" + "\tBXD25\tBXD27\tBXD28\tBXD29"
      + "\tBXD30\tBXD31\tBXD32\tBXD33" + "\tBXD34\tBXD35\tBXD36\tBXD37"
      + "\tBXD38\tBXD39\tBXD40\tBXD42";
      FromLines([
        "#comment line always start with a '#'",
        "#type riset or intercross",
        "@type:riset",
        "@name:BXD",
        "#abbreviation of maternal or paternal parents",
        "@mat:B6",
        "@pat:D",
        "#heterozygous , optional, default is \"H\"",
        "@het:H",
        "#Unknown , optional, default is \"U\"",
        "@unk:U",
        header])
      == Ok(Metadata("BXD", "B6", "D", "riset", "H", "U"))
  {
    // Only the layout lemma is needed, not the parser itself.
    hide FromLines, Collect, ParseLine;
    var header := "Chr" + "\tLocus\tcM\tBXD1\tBXD2\tBXD5" + "\tBXD6\tBXD8\tBXD9\tBXD11"
      + "\tBXD12\tBXD13\tBXD14\tBXD15" + "\tBXD16\tBXD18\tBXD19\tBXD20"
      + "\tBXD21\tBXD22\tBXD23\tBXD24" + "\tBXD25\tBXD27\tBXD28\tBXD29"
      + "\tBXD30\tBXD31\tBXD32\tBXD33" + "\tBXD34\tBXD35\tBXD36\tBXD37"
      + "\tBXD38\tBXD39\tBXD40\tBXD42";
    assert header[0] == 'C';
    assert "#comment line always start with a '#'"[0] == '#';
    assert "#type riset or intercross"[0] == '#';
    assert "#abbreviation of maternal or paternal parents"[0] == '#';
    assert "#heterozygous , optional, default is \"H\""[0] == '#';
    assert "#Unknown , optional, default is \"U\""[0] == '#';
    FromLinesOfLayout("#comment line always start with a '#'", "#type riset or intercross", "riset", "BXD",
                      "#abbreviation of maternal or paternal parents", "B6", "D",
                      "#heterozygous , optional, default is \"H\"", "H",
                      "#Unknown , optional, default is \"U\"", "U", header);
    assert "@type:" + "riset" == "@type:riset";
    assert "@name:" + "BXD" == "@name:BXD";
    assert "@mat:" + "B6" == "@mat:B6";
    assert "@pat:" + "D" == "@pat:D";
    assert "@het:" + "H" == "@het:H";
    assert "@unk:" + "U" == "@unk:U";
  }
}
