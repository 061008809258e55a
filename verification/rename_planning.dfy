/**
 * The renamer tab's planning: reading identifiers from file names, ordering
 * the files, numbering them (parsed or sequential), rendering target names
 * from a template and completing the extension.
 */
module RenamePlanning {
  import opened Wrappers
  import opened Strings
  import opened Sequences
  import opened Directory
  import opened Patterns

  /**
   * `PartOrder.get(part, 0)`: 1 to 26 for the single letters A to Z, 0 for
   * no part or any other string.
   */
  function PartRank(part: string): (rank: nat)
    ensures rank <= 26
    ensures rank > 0 <==> |part| == 1 && 'A' <= part[0] <= 'Z'
    ensures rank > 0 ==> part[0] as int == 'A' as int + rank - 1
  {
    if |part| == 1 && 'A' <= part[0] <= 'Z' then part[0] as int - 'A' as int + 1 else 0
  }

  /** A parsed file: its name and its identifier. */
  datatype Parsed = Parsed(name: string, id: Ident)

  /** Python's order on `sort_key`: `(season, episode, part rank, name.lower())`. */
  predicate SortKeyLe(a: Parsed, b: Parsed) {
    || a.id.season < b.id.season
    || (a.id.season == b.id.season &&
        (|| a.id.episode < b.id.episode
         || (a.id.episode == b.id.episode &&
             (|| PartRank(a.id.part) < PartRank(b.id.part)
              || (PartRank(a.id.part) == PartRank(b.id.part) && StrLe(Lower(a.name), Lower(b.name)))))))
  }

  lemma SortKeyLeIsTotalPreorder()
    ensures TotalPreorder(SortKeyLe)
  {
    forall a: Parsed, b: Parsed
      ensures SortKeyLe(a, b) || SortKeyLe(b, a)
    {
      StrLtTotal(Lower(a.name), Lower(b.name));
    }
    forall a: Parsed, b: Parsed, c: Parsed | SortKeyLe(a, b) && SortKeyLe(b, c)
      ensures SortKeyLe(a, c)
    {
      if StrLt(Lower(a.name), Lower(b.name)) && StrLt(Lower(b.name), Lower(c.name)) {
        StrLtTransitive(Lower(a.name), Lower(b.name), Lower(c.name));
      }
    }
  }

  /** `scan_files`: the listed names that are regular files, in listing order. */
  function ScanFiles(dir: Dir, names: seq<string>): (files: seq<string>)
    ensures forall f :: f in files <==> f in names && IsRegularFile(dir, f)
    ensures Distinct(names) ==> Distinct(files)
  {
    if |names| == 0 then []
    else
      var rest := ScanFiles(dir, names[1..]);
      assert forall f :: f in names <==> f == names[0] || f in names[1..];
      if IsRegularFile(dir, names[0]) then
        assert Distinct(names) ==> names[0] !in names[1..] && Distinct(names[1..]);
        [names[0]] + rest
      else
        assert Distinct(names) ==> Distinct(names[1..]);
        rest
  }

  /** `scan_files` keeps the listing order: the files are the listing with some names left out. */
  lemma ScanFilesInOrder(dir: Dir, names: seq<string>)
    ensures Subsequence(ScanFiles(dir, names), names)
  {
    var idx := ScanFilesPicks(dir, names);
  }

  lemma {:induction false} ScanFilesPicks(dir: Dir, names: seq<string>) returns (idx: seq<int>)
    ensures PicksInOrder(ScanFiles(dir, names), names, idx)
  {
    if |names| == 0 {
      idx := [];
    } else {
      var rest := ScanFilesPicks(dir, names[1..]);
      if IsRegularFile(dir, names[0]) {
        PicksKeep(ScanFiles(dir, names[1..]), names, rest);
        idx := [0] + Shift(rest);
      } else {
        PicksSkip(ScanFiles(dir, names[1..]), names, rest);
        idx := Shift(rest);
      }
    }
  }

  /** `parse_identifier` with the pattern fixed. */
  function ParserOf(patt: Pattern): string -> Option<Ident> {
    name => ParseIdentifier(name, patt)
  }

  /** Applying the parser is reading the identifier; the plan lemmas use this to see through the lambda. */
  lemma ParserOfParses(patt: Pattern)
    ensures forall name :: ParserOf(patt)(name) == ParseIdentifier(name, patt)
  {
  }

  /** The files `parse` accepts, with their identifiers, in file order. */
  function ParseAll(files: seq<string>, parse: string -> Option<Ident>): (ps: seq<Parsed>)
    ensures forall p :: p in ps ==> p.name in files && parse(p.name) == Some(p.id)
    ensures forall f :: f in files && parse(f).Some? ==> Parsed(f, parse(f).value) in ps
    ensures Distinct(files) ==> Distinct(Names(ps))
  {
    if |files| == 0 then []
    else
      var rest := ParseAll(files[1..], parse);
      var ps := if parse(files[0]).Some? then [Parsed(files[0], parse(files[0]).value)] + rest else rest;
      ParseAllStep(files, parse, rest, ps);
      ps
  }

  /** The parsed files keep the files' order: their names are the files with some left out. */
  lemma ParseAllInOrder(files: seq<string>, parse: string -> Option<Ident>)
    ensures Subsequence(Names(ParseAll(files, parse)), files)
  {
    var idx := ParseAllPicks(files, parse);
  }

  lemma {:induction false} ParseAllPicks(files: seq<string>, parse: string -> Option<Ident>) returns (idx: seq<int>)
    ensures PicksInOrder(Names(ParseAll(files, parse)), files, idx)
  {
    if |files| == 0 {
      idx := [];
    } else {
      var rest := ParseAllPicks(files[1..], parse);
      var tail := ParseAll(files[1..], parse);
      if parse(files[0]).Some? {
        var p := Parsed(files[0], parse(files[0]).value);
        assert ParseAll(files, parse) == [p] + tail;
        NamesCons(p, tail);
        PicksKeep(Names(tail), files, rest);
        idx := [0] + Shift(rest);
      } else {
        assert ParseAll(files, parse) == tail;
        PicksSkip(Names(tail), files, rest);
        idx := Shift(rest);
      }
    }
  }

  lemma NamesCons(p: Parsed, rest: seq<Parsed>)
    ensures Names([p] + rest) == [p.name] + Names(rest)
  {
  }

  /** One step of `ParseAll`: the first file, parsed or skipped, in front of the rest. */
  lemma ParseAllStep(files: seq<string>, parse: string -> Option<Ident>, rest: seq<Parsed>, ps: seq<Parsed>)
    requires |files| > 0
    requires forall p :: p in rest ==> p.name in files[1..] && parse(p.name) == Some(p.id)
    requires forall f :: f in files[1..] && parse(f).Some? ==> Parsed(f, parse(f).value) in rest
    requires Distinct(files[1..]) ==> Distinct(Names(rest))
    requires ps == if parse(files[0]).Some? then [Parsed(files[0], parse(files[0]).value)] + rest else rest
    ensures forall p :: p in ps ==> p.name in files && parse(p.name) == Some(p.id)
    ensures forall f :: f in files && parse(f).Some? ==> Parsed(f, parse(f).value) in ps
    ensures Distinct(files) ==> Distinct(Names(ps))
  {
    assert forall f :: f in files <==> f == files[0] || f in files[1..];
    if parse(files[0]).Some? {
      var p := Parsed(files[0], parse(files[0]).value);
      assert forall q :: q in ps <==> q == p || q in rest;
      assert Distinct(files) ==> Distinct(Names(ps)) by {
        if Distinct(files) {
          assert files[0] !in files[1..] && Distinct(files[1..]);
          NamesCons(p, rest);
          forall i | 0 <= i < |rest|
            ensures Names(rest)[i] in files[1..]
          {
            assert rest[i] in rest;
          }
        }
      }
    } else {
      assert Distinct(files) ==> Distinct(files[1..]);
    }
  }

  function Names(ps: seq<Parsed>): (names: seq<string>)
    ensures |names| == |ps| && forall i :: 0 <= i < |ps| ==> names[i] == ps[i].name
  {
    seq(|ps|, i requires 0 <= i < |ps| => ps[i].name)
  }

  /**
   * The loop of `build_numbering` from position `i` on: parsed mode records
   * each file's own identifier; manual mode records the current season and
   * episode with the file's part and advances only the episode.
   */
  function NumberFrom(ps: seq<Parsed>, i: nat, useParsed: bool, curSeason: int, curEpisode: int, acc: map<string, Ident>)
    : (m: map<string, Ident>)
    requires i <= |ps|
    ensures forall k :: i <= k < |ps| ==> ps[k].name in m
    ensures forall n :: n in acc ==> n in m
    decreases |ps| - i
  {
    if i == |ps| then acc
    else if useParsed then NumberFrom(ps, i + 1, useParsed, curSeason, curEpisode, acc[ps[i].name := ps[i].id])
    else NumberFrom(ps, i + 1, useParsed, curSeason, curEpisode + 1, acc[ps[i].name := Ident(curSeason, curEpisode, ps[i].id.part)])
  }

  /** `build_numbering`: a map from file name to the identifier its target is rendered with. */
  function BuildNumbering(ps: seq<Parsed>, useParsed: bool, startSeason: int, startEpisode: int): (m: map<string, Ident>)
    ensures forall k :: 0 <= k < |ps| ==> ps[k].name in m
  {
    NumberFrom(ps, 0, useParsed, startSeason, startEpisode, map[])
  }

  lemma {:induction false} NumberFromSpec(ps: seq<Parsed>, i: nat, useParsed: bool, s0: int, e0: int, ce: int, acc: map<string, Ident>)
    requires i <= |ps| && Distinct(Names(ps))
    requires useParsed || ce == e0 + i
    ensures var m := NumberFrom(ps, i, useParsed, s0, ce, acc);
      && (forall k :: i <= k < |ps| ==>
            m[ps[k].name] == if useParsed then ps[k].id else Ident(s0, e0 + k, ps[k].id.part))
      && (forall n :: n in m ==> n in acc || exists k :: i <= k < |ps| && ps[k].name == n)
    decreases |ps| - i
  {
    if i < |ps| {
      var v := if useParsed then ps[i].id else Ident(s0, ce, ps[i].id.part);
      var ce' := if useParsed then ce else ce + 1;
      var acc' := acc[ps[i].name := v];
      NumberFromSpec(ps, i + 1, useParsed, s0, e0, ce', acc');
      NumberFromKeeps(ps, i + 1, useParsed, s0, ce', acc', ps[i].name);
      assert Names(ps)[i] == ps[i].name;
    }
  }

  /** A name not met from position `i` on keeps its value from the accumulator. */
  lemma {:induction false} NumberFromKeeps(ps: seq<Parsed>, i: nat, useParsed: bool, cs: int, ce: int, acc: map<string, Ident>, n: string)
    requires i <= |ps| && n in acc
    requires forall k :: i <= k < |ps| ==> ps[k].name != n
    ensures NumberFrom(ps, i, useParsed, cs, ce, acc)[n] == acc[n]
    decreases |ps| - i
  {
    if i < |ps| {
      if useParsed {
        NumberFromKeeps(ps, i + 1, useParsed, cs, ce, acc[ps[i].name := ps[i].id], n);
      } else {
        NumberFromKeeps(ps, i + 1, useParsed, cs, ce + 1, acc[ps[i].name := Ident(cs, ce, ps[i].id.part)], n);
      }
    }
  }

  /**
   * With distinct names, the `k`-th file (from 0) is numbered with its own
   * identifier in parsed mode and with `(startSeason, startEpisode + k, its
   * part)` in manual mode; the season never advances, and no other name is
   * numbered.
   */
  lemma BuildNumberingSpec(ps: seq<Parsed>, useParsed: bool, startSeason: int, startEpisode: int)
    requires Distinct(Names(ps))
    ensures var m := BuildNumbering(ps, useParsed, startSeason, startEpisode);
      && (forall k :: 0 <= k < |ps| ==>
            m[ps[k].name] == if useParsed then ps[k].id else Ident(startSeason, startEpisode + k, ps[k].id.part))
      && (forall n :: n in m ==> exists k :: 0 <= k < |ps| && ps[k].name == n)
  {
    NumberFromSpec(ps, 0, useParsed, startSeason, startEpisode, startEpisode, map[]);
  }

  /** The keyword arguments `render_new_name` passes to `str.format`. */
  datatype Fields = Fields(season: int, episode: int, part: string, index: int, ext: string)

  /** The five placeholders a bare template may use. */
  datatype Slot = SeasonSlot | EpisodeSlot | PartSlot | IndexSlot | ExtSlot

  function SlotName(s: Slot): string {
    match s
    case SeasonSlot => "season"
    case EpisodeSlot => "episode"
    case PartSlot => "part"
    case IndexSlot => "index"
    case ExtSlot => "ext"
  }

  /**
   * A bare template, read as the pieces its text consists of: runs of
   * literal text without braces, and placeholders `{name}`.
   */
  datatype Piece = Text(text: string) | Field(slot: Slot)

  predicate NoBraces(t: string) { forall i :: 0 <= i < |t| ==> t[i] != '{' && t[i] != '}' }

  predicate WellFormed(pieces: seq<Piece>) {
    forall i :: 0 <= i < |pieces| && pieces[i].Text? ==> NoBraces(pieces[i].text)
  }

  /** The template text the pieces spell. */
  function Spell(pieces: seq<Piece>): string {
    if |pieces| == 0 then ""
    else
      match pieces[0]
      case Text(t) => t + Spell(pieces[1..])
      case Field(s) => "{" + SlotName(s) + "}" + Spell(pieces[1..])
  }

  /** `str(value)` for each keyword argument; `part` and `ext` are strings already. */
  function SlotText(f: Fields, s: Slot): string {
    match s
    case SeasonSlot => IntString(f.season)
    case EpisodeSlot => IntString(f.episode)
    case PartSlot => f.part
    case IndexSlot => IntString(f.index)
    case ExtSlot => f.ext
  }

  /** `template.format(...)`: each placeholder replaced by its field's text. */
  function Render(pieces: seq<Piece>, f: Fields): string {
    if |pieces| == 0 then ""
    else
      match pieces[0]
      case Text(t) => t + Render(pieces[1..], f)
      case Field(s) => SlotText(f, s) + Render(pieces[1..], f)
  }

  /** Rendering is piecewise: it distributes over concatenation of templates. */
  lemma {:induction false} RenderConcat(a: seq<Piece>, b: seq<Piece>, f: Fields)
    ensures Render(a + b, f) == Render(a, f) + Render(b, f)
    decreases |a|
  {
    if |a| == 0 {
      assert a + b == b;
    } else {
      assert (a + b)[0] == a[0];
      assert (a + b)[1..] == a[1..] + b;
      RenderConcat(a[1..], b, f);
    }
  }

  /** A template without placeholders renders as its own text. */
  lemma {:induction false} RenderNoFields(pieces: seq<Piece>, f: Fields)
    requires forall i :: 0 <= i < |pieces| ==> pieces[i].Text?
    ensures Render(pieces, f) == Spell(pieces)
    decreases |pieces|
  {
    if |pieces| > 0 {
      RenderNoFields(pieces[1..], f);
    }
  }

  /** A lone placeholder renders as its field's text, and a literal run as itself. */
  lemma RenderSingle(p: Piece, f: Fields)
    ensures Render([p], f) == if p.Text? then p.text else SlotText(f, p.slot)
  {
    assert [p][1..] == [];
  }

  /** `render_new_name`: the part is passed as "" when there is none. */
  function RenderNewName(template: seq<Piece>, season: int, episode: int, part: string, index: int, ext: string): string {
    Render(template, Fields(season, episode, part, index, ext))
  }

  /** The template the renamer uses when the field is empty: "Episode {episode} Staffel {season}". */
  const DefaultTemplate: seq<Piece> := [Text("Episode "), Field(EpisodeSlot), Text(" Staffel "), Field(SeasonSlot)]

  /**
   * The extension rule of `compute_plan`: `.ext` is appended when the file
   * has an extension, the template text does not contain `{ext`, and the
   * rendered name does not already end in `.ext`. `ext` is the extension as
   * `splitext` returns it, with its dot.
   */
  function TargetName(template: seq<Piece>, rendered: string, ext: string): (r: string)
    ensures StartsWith(r, rendered)
    ensures r == rendered || r == rendered + "." + StripLeading(ext, '.')
    ensures ext != "" && !Contains(Spell(template), "{ext") ==> EndsWith(r, "." + StripLeading(ext, '.'))
    ensures ext == "" || Contains(Spell(template), "{ext") || EndsWith(rendered, "." + StripLeading(ext, '.')) ==> r == rendered
  {
    var e := StripLeading(ext, '.');
    var placed := Contains(Spell(template), "{ext");
    if !placed && !EndsWith(rendered, "." + e) && ext != "" then
      Appended(rendered, e);
      rendered + "." + e
    else
      assert StartsWith(rendered, rendered) by { assert rendered[..|rendered|] == rendered; }
      rendered
  }

  lemma Appended(rendered: string, e: string)
    ensures StartsWith(rendered + "." + e, rendered) && EndsWith(rendered + "." + e, "." + e)
  {
    assert (rendered + "." + e)[..|rendered|] == rendered;
    assert (rendered + "." + e)[|rendered|..] == "." + e;
  }

  lemma {:induction false} ContainsAppend(a: string, b: string, sub: string)
    requires Contains(b, sub)
    ensures Contains(a + b, sub)
    decreases |a|
  {
    if |a| > 0 {
      ContainsAppend(a[1..], b, sub);
      assert (a + b)[1..] == a[1..] + b;
    } else {
      assert a + b == b;
    }
  }

  /** A template that uses `{ext}` never gets a second extension appended. */
  lemma ExtFieldSuppressesSuffix(template: seq<Piece>, rendered: string, ext: string)
    requires Field(ExtSlot) in template
    ensures TargetName(template, rendered, ext) == rendered
  {
    ExtFieldInSpelling(template);
  }

  lemma {:induction false} ExtFieldInSpelling(template: seq<Piece>)
    requires Field(ExtSlot) in template
    ensures Contains(Spell(template), "{ext")
    decreases |template|
  {
    var rest := Spell(template[1..]);
    if template[0] == Field(ExtSlot) {
      var s := "{ext}" + rest;
      assert Spell(template) == s;
      assert s[..4] == "{ext";
    } else {
      assert Field(ExtSlot) in template[1..];
      ExtFieldInSpelling(template[1..]);
      var head := Spell(template[..1]);
      match template[0]
      case Text(t) =>
        ContainsAppend(t, rest, "{ext");
      case Field(sl) =>
        ContainsAppend("{" + SlotName(sl) + "}", rest, "{ext");
        assert Spell(template) == "{" + SlotName(sl) + "}" + rest;
    }
  }

  /** No '{' in `s` starts the text "{ext". */
  predicate NoExtOpening(s: string) {
    forall i :: 0 <= i < |s| && s[i] == '{' ==> !StartsWith(s[i..], "{ext")
  }

  lemma {:induction false} NoExtOpeningNotContains(s: string)
    requires NoExtOpening(s)
    ensures !Contains(s, "{ext")
    decreases |s|
  {
    if |s| > 0 {
      assert NoExtOpening(s[1..]) by {
        forall i | 0 <= i < |s[1..]| && s[1..][i] == '{'
          ensures !StartsWith(s[1..][i..], "{ext")
        {
          assert s[1..][i..] == s[i + 1..];
        }
      }
      NoExtOpeningNotContains(s[1..]);
      assert s[0..] == s;
      assert "{ext"[0] == '{';
    }
  }

  lemma NoExtOpeningConcat(h: string, r: string)
    requires NoExtOpening(r)
    requires forall i :: 0 <= i < |h| && h[i] == '{' ==> i == 0 && |h| >= 4 && h[1..4] != "ext"
    ensures NoExtOpening(h + r)
  {
    forall i | 0 <= i < |h + r| && (h + r)[i] == '{'
      ensures !StartsWith((h + r)[i..], "{ext")
    {
      if i < |h| {
        assert h[i] == '{';
        assert (h + r)[1..4] == h[1..4];
        assert "{ext"[1..4] == "ext";
      } else {
        assert (h + r)[i..] == r[i - |h|..];
      }
    }
  }

  lemma SlotNameStart(sl: Slot)
    requires sl != ExtSlot
    ensures |SlotName(sl)| >= 3 && SlotName(sl)[..3] != "ext" && NoBraces(SlotName(sl))
  {
    match sl
    case SeasonSlot => assert SlotName(sl)[..3] == "sea";
    case EpisodeSlot => assert SlotName(sl)[..3] == "epi";
    case PartSlot => assert SlotName(sl)[..3] == "par";
    case IndexSlot => assert SlotName(sl)[..3] == "ind";
  }

  lemma {:induction false} NoExtInSpelling(template: seq<Piece>)
    requires WellFormed(template) && Field(ExtSlot) !in template
    ensures NoExtOpening(Spell(template))
    decreases |template|
  {
    if |template| > 0 {
      assert WellFormed(template[1..]) by {
        forall i | 0 <= i < |template[1..]| && template[1..][i].Text?
          ensures NoBraces(template[1..][i].text)
        {
          assert template[1..][i] == template[i + 1];
        }
      }
      assert Field(ExtSlot) !in template[1..];
      NoExtInSpelling(template[1..]);
      var rest := Spell(template[1..]);
      match template[0]
      case Text(t) =>
        NoExtOpeningConcat(t, rest);
      case Field(sl) =>
        var name := SlotName(sl);
        var h := "{" + name + "}";
        SlotNameStart(sl);
        assert h[1..4] == name[..3];
        assert forall i :: 0 < i < |h| - 1 ==> h[i] == name[i - 1];
        NoExtOpeningConcat(h, rest);
        assert Spell(template) == h + rest;
    }
  }

  /**
   * For a well-formed template, `'{ext' in template` holds exactly when the
   * template uses the `{ext}` placeholder, so the extension is appended
   * exactly when the template does not place it itself (and the file has one
   * that the rendered name does not already end with).
   */
  lemma ExtSuffixRule(template: seq<Piece>, rendered: string, ext: string)
    requires WellFormed(template)
    ensures Contains(Spell(template), "{ext") <==> Field(ExtSlot) in template
    ensures TargetName(template, rendered, ext) ==
      if ext != "" && Field(ExtSlot) !in template && !EndsWith(rendered, "." + StripLeading(ext, '.'))
      then rendered + "." + StripLeading(ext, '.') else rendered
  {
    if Field(ExtSlot) in template {
      ExtFieldInSpelling(template);
    } else {
      NoExtInSpelling(template);
      NoExtOpeningNotContains(Spell(template));
    }
  }

  /** The target of one plan entry: its name rendered with its numbering and 1-based position. */
  function EntryTarget(template: seq<Piece>, id: Ident, index: int, name: string): string {
    var ext := Ext(name);
    TargetName(template, RenderNewName(template, id.season, id.episode, id.part, index, StripLeading(ext, '.')), ext)
  }

  /** `EntryTarget` for a fixed template, as a function of the numbering, position and name. */
  function TargetOf(template: seq<Piece>): (Ident, int, string) -> string {
    (id, index, name) => EntryTarget(template, id, index, name)
  }

  lemma TargetOfApplies(template: seq<Piece>, id: Ident, index: int, name: string)
    ensures TargetOf(template)(id, index, name) == EntryTarget(template, id, index, name)
  {
  }

  /**
   * The plan entries for files already sorted: each name paired with the
   * target `target` renders from its numbering and 1-based position.
   */
  function PlanWith(sorted: seq<Parsed>, numbering: map<string, Ident>, target: (Ident, int, string) -> string)
    : seq<(string, string)>
    requires forall k :: 0 <= k < |sorted| ==> sorted[k].name in numbering
  {
    seq(|sorted|, k requires 0 <= k < |sorted| => (sorted[k].name, target(numbering[sorted[k].name], k + 1, sorted[k].name)))
  }

  /** The plan entries for files already sorted, numbered and rendered through the template. */
  function PlanFrom(sorted: seq<Parsed>, template: seq<Piece>, useParsed: bool, startSeason: int, startEpisode: int)
    : seq<(string, string)>
  {
    PlanWith(sorted, BuildNumbering(sorted, useParsed, startSeason, startEpisode), TargetOf(template))
  }

  /**
   * `compute_plan`: the parseable files sorted by `sort_key`, numbered, and
   * paired with their rendered targets; empty when nothing parses.
   */
  function ComputePlan(files: seq<string>, patt: Pattern, template: seq<Piece>, useParsed: bool, startSeason: int, startEpisode: int)
    : seq<(string, string)>
  {
    var parsed := ParseAll(files, ParserOf(patt));
    if |parsed| == 0 then [] else PlanFrom(Sort(parsed, SortKeyLe), template, useParsed, startSeason, startEpisode)
  }

  function Sources(plan: seq<(string, string)>): (srcs: seq<string>)
    ensures |srcs| == |plan| && forall i :: 0 <= i < |plan| ==> srcs[i] == plan[i].0
  {
    seq(|plan|, i requires 0 <= i < |plan| => plan[i].0)
  }

  /**
   * The identifier the `k`-th sorted file (from 0) is rendered with: its own
   * in parsed mode, `(startSeason, startEpisode + k, its part)` in manual mode.
   */
  function NumberedId(id: Ident, k: int, useParsed: bool, startSeason: int, startEpisode: int): Ident {
    if useParsed then id else Ident(startSeason, startEpisode + k, id.part)
  }

  /**
   * Whatever the rendering, the plan's sources are the sorted names and the
   * `k`-th target is rendered from the file's own identifier (parsed mode)
   * or from the start season and start episode + `k` (manual mode).
   */
  lemma PlanWithSpec(sorted: seq<Parsed>, useParsed: bool, startSeason: int, startEpisode: int, target: (Ident, int, string) -> string)
    requires Distinct(Names(sorted))
    ensures var plan := PlanWith(sorted, BuildNumbering(sorted, useParsed, startSeason, startEpisode), target);
      && Sources(plan) == Names(sorted)
      && forall k :: 0 <= k < |plan| ==>
        plan[k].1 == target(NumberedId(sorted[k].id, k, useParsed, startSeason, startEpisode), k + 1, sorted[k].name)
  {
    var numbering := BuildNumbering(sorted, useParsed, startSeason, startEpisode);
    var plan := PlanWith(sorted, numbering, target);
    BuildNumberingSpec(sorted, useParsed, startSeason, startEpisode);
    forall k | 0 <= k < |plan|
      ensures plan[k].1 == target(NumberedId(sorted[k].id, k, useParsed, startSeason, startEpisode), k + 1, sorted[k].name)
    {
      assert numbering[sorted[k].name] == NumberedId(sorted[k].id, k, useParsed, startSeason, startEpisode);
    }
    assert Sources(plan) == Names(sorted);
  }

  /** The plan's sources are the sorted names, in order. */
  lemma PlanFromSources(sorted: seq<Parsed>, template: seq<Piece>, useParsed: bool, startSeason: int, startEpisode: int)
    requires Distinct(Names(sorted))
    ensures Sources(PlanFrom(sorted, template, useParsed, startSeason, startEpisode)) == Names(sorted)
  {
    PlanWithSpec(sorted, useParsed, startSeason, startEpisode, TargetOf(template));
  }

  lemma PlanFromSpec(sorted: seq<Parsed>, template: seq<Piece>, useParsed: bool, startSeason: int, startEpisode: int)
    requires Distinct(Names(sorted))
    ensures var plan := PlanFrom(sorted, template, useParsed, startSeason, startEpisode);
      && Sources(plan) == Names(sorted)
      && forall k :: 0 <= k < |plan| ==>
        plan[k].1 == TargetOf(template)(NumberedId(sorted[k].id, k, useParsed, startSeason, startEpisode), k + 1, sorted[k].name)
  {
    PlanWithSpec(sorted, useParsed, startSeason, startEpisode, TargetOf(template));
  }

  /** The plan is empty exactly when no file parses. */
  lemma ComputePlanEmpty(files: seq<string>, patt: Pattern, template: seq<Piece>, useParsed: bool, startSeason: int, startEpisode: int)
    ensures ComputePlan(files, patt, template, useParsed, startSeason, startEpisode) == []
      <==> forall f :: f in files ==> ParseIdentifier(f, patt).None?
  {
    var parsed := ParseAll(files, ParserOf(patt));
    ParserOfParses(patt);
    if |parsed| > 0 {
      assert parsed[0] in parsed;
      assert |Sort(parsed, SortKeyLe)| > 0;
    }
  }

  /**
   * A rearrangement of parsed files keeps the set of names, and keeps them
   * duplicate-free when each name carries the identifier `parse` gives it.
   */
  lemma PermutedParsed(a: seq<Parsed>, b: seq<Parsed>, parse: string -> Option<Ident>)
    requires multiset(a) == multiset(b)
    requires forall p :: p in a ==> parse(p.name) == Some(p.id)
    ensures forall p :: p in b ==> p in a
    ensures forall f :: f in Names(b) <==> f in Names(a)
    ensures Distinct(Names(a)) ==> Distinct(Names(b))
  {
    forall p | p in b
      ensures p in a
    {
      assert p in multiset(b);
    }
    forall f | f in Names(a)
      ensures f in Names(b)
    {
      var k :| 0 <= k < |a| && Names(a)[k] == f;
      assert a[k] in multiset(b);
      var j :| 0 <= j < |b| && b[j] == a[k];
      assert Names(b)[j] == f;
    }
    forall f | f in Names(b)
      ensures f in Names(a)
    {
      var k :| 0 <= k < |b| && Names(b)[k] == f;
      assert b[k] in multiset(a);
      var j :| 0 <= j < |a| && a[j] == b[k];
      assert Names(a)[j] == f;
    }
    if Distinct(Names(a)) {
      assert Distinct(a) by {
        forall i, j | 0 <= i < j < |a|
          ensures a[i] != a[j]
        {
          assert Names(a)[i] != Names(a)[j];
        }
      }
      DistinctPermutation(a, b);
      forall i, j | 0 <= i < j < |b|
        ensures Names(b)[i] != Names(b)[j]
      {
        assert b[i] in a && b[j] in a;
      }
    }
  }

  lemma SortedParsedDistinct(files: seq<string>, parse: string -> Option<Ident>)
    requires Distinct(files)
    ensures var sorted := Sort(ParseAll(files, parse), SortKeyLe);
      Distinct(Names(sorted)) && forall p :: p in sorted ==> p.name in files && parse(p.name) == Some(p.id)
  {
    var parsed := ParseAll(files, parse);
    PermutedParsed(parsed, Sort(parsed, SortKeyLe), parse);
  }

  /** Parsed files whose membership matches `parse` name exactly the parseable files. */
  lemma ParsedNames(parsed: seq<Parsed>, files: seq<string>, parse: string -> Option<Ident>)
    requires forall p :: p in parsed ==> p.name in files && parse(p.name) == Some(p.id)
    requires forall f :: f in files && parse(f).Some? ==> Parsed(f, parse(f).value) in parsed
    ensures forall f :: f in Names(parsed) <==> f in files && parse(f).Some?
  {
    forall f | f in files && parse(f).Some?
      ensures f in Names(parsed)
    {
      var p := Parsed(f, parse(f).value);
      var k :| 0 <= k < |parsed| && parsed[k] == p;
      assert Names(parsed)[k] == f;
    }
    forall f | f in Names(parsed)
      ensures f in files && parse(f).Some?
    {
      var k :| 0 <= k < |parsed| && Names(parsed)[k] == f;
      assert parsed[k] in parsed;
    }
  }

  /** The sorted parse holds exactly the parseable files. */
  lemma SortedParsedNames(files: seq<string>, parse: string -> Option<Ident>)
    ensures forall f :: f in Names(Sort(ParseAll(files, parse), SortKeyLe)) <==> f in files && parse(f).Some?
  {
    var parsed := ParseAll(files, parse);
    PermutedParsed(parsed, Sort(parsed, SortKeyLe), parse);
    ParsedNames(parsed, files, parse);
  }

  /**
   * With distinct file names (as a directory listing has), the plan holds
   * each parseable file exactly once and nothing else.
   */
  lemma ComputePlanSources(files: seq<string>, patt: Pattern, template: seq<Piece>, useParsed: bool, startSeason: int, startEpisode: int)
    requires Distinct(files)
    ensures var plan := ComputePlan(files, patt, template, useParsed, startSeason, startEpisode);
      && Distinct(Sources(plan))
      && (forall f :: f in Sources(plan) <==> f in files && ParseIdentifier(f, patt).Some?)
  {
    var parsed := ParseAll(files, ParserOf(patt));
    var sorted := Sort(parsed, SortKeyLe);
    ParserOfParses(patt);
    SortedParsedNames(files, ParserOf(patt));
    if |parsed| > 0 {
      SortedParsedDistinct(files, ParserOf(patt));
      PlanFromSources(sorted, template, useParsed, startSeason, startEpisode);
    } else {
      assert Names(sorted) == [];
    }
  }

  /**
   * The sort in `compute_plan` is stable: parsed files with the same sort
   * key (the same season, episode and part rank, and names equal up to
   * ASCII case) keep their listing order. The plan's sources are the sorted names (`PlanFromSpec`).
   */
  lemma ComputePlanStable(files: seq<string>, patt: Pattern, c: Parsed)
    ensures var parsed := ParseAll(files, ParserOf(patt));
      SameKey(Sort(parsed, SortKeyLe), SortKeyLe, c) == SameKey(parsed, SortKeyLe, c)
  {
    SortKeyLeIsTotalPreorder();
    SortStable(ParseAll(files, ParserOf(patt)), SortKeyLe, c);
  }

  /** The plan is ordered by `(season, episode, part rank, name.lower())` of the parsed identifiers. */
  lemma ComputePlanOrdered(files: seq<string>, patt: Pattern, template: seq<Piece>, useParsed: bool, startSeason: int, startEpisode: int)
    requires Distinct(files)
    ensures var plan := ComputePlan(files, patt, template, useParsed, startSeason, startEpisode);
      forall i, j :: 0 <= i < j < |plan| ==>
        ParseIdentifier(plan[i].0, patt).Some? && ParseIdentifier(plan[j].0, patt).Some? &&
        SortKeyLe(Parsed(plan[i].0, ParseIdentifier(plan[i].0, patt).value),
                  Parsed(plan[j].0, ParseIdentifier(plan[j].0, patt).value))
  {
    var plan := ComputePlan(files, patt, template, useParsed, startSeason, startEpisode);
    var parsed := ParseAll(files, ParserOf(patt));
    ParserOfParses(patt);
    if |parsed| > 0 {
      var sorted := Sort(parsed, SortKeyLe);
      SortedParsedDistinct(files, ParserOf(patt));
      PlanFromSources(sorted, template, useParsed, startSeason, startEpisode);
      SortKeyLeIsTotalPreorder();
      SortSorted(parsed, SortKeyLe);
      forall i, j | 0 <= i < j < |plan|
        ensures ParseIdentifier(plan[i].0, patt).Some? && ParseIdentifier(plan[j].0, patt).Some? &&
          SortKeyLe(Parsed(plan[i].0, ParseIdentifier(plan[i].0, patt).value),
                    Parsed(plan[j].0, ParseIdentifier(plan[j].0, patt).value))
      {
        assert Names(sorted)[i] == plan[i].0 && Names(sorted)[j] == plan[j].0;
        assert sorted[i] in sorted && sorted[j] in sorted;
      }
    }
  }

  /**
   * With distinct file names, the `k`-th entry's target (from 0) is rendered
   * with index `k + 1` and with the file's own identifier in parsed mode, or
   * `(startSeason, startEpisode + k, its part)` in manual mode.
   */
  lemma ComputePlanTargets(files: seq<string>, patt: Pattern, template: seq<Piece>, useParsed: bool, startSeason: int, startEpisode: int)
    requires Distinct(files)
    ensures var plan := ComputePlan(files, patt, template, useParsed, startSeason, startEpisode);
      forall k :: 0 <= k < |plan| ==>
        ParseIdentifier(plan[k].0, patt).Some? &&
        plan[k].1 == EntryTarget(template,
          NumberedId(ParseIdentifier(plan[k].0, patt).value, k, useParsed, startSeason, startEpisode), k + 1, plan[k].0)
  {
    var plan := ComputePlan(files, patt, template, useParsed, startSeason, startEpisode);
    var parsed := ParseAll(files, ParserOf(patt));
    if |parsed| > 0 {
      var sorted := Sort(parsed, SortKeyLe);
      SortedParsedDistinct(files, ParserOf(patt));
      PlanFromSpec(sorted, template, useParsed, startSeason, startEpisode);
      assert forall p :: p in sorted ==> ParseIdentifier(p.name, patt) == Some(p.id) by {
        ParserOfParses(patt);
      }
      PlanTargetsOfSorted(sorted, plan, template, useParsed, startSeason, startEpisode, patt);
    }
  }

  /** The targets of a plan built from sorted parsed files, restated through the identifiers the files parse to. */
  lemma PlanTargetsOfSorted(sorted: seq<Parsed>, plan: seq<(string, string)>, template: seq<Piece>,
                            useParsed: bool, startSeason: int, startEpisode: int, patt: Pattern)
    requires Sources(plan) == Names(sorted)
    requires forall k :: 0 <= k < |plan| ==>
      plan[k].1 == TargetOf(template)(NumberedId(sorted[k].id, k, useParsed, startSeason, startEpisode), k + 1, sorted[k].name)
    requires forall p :: p in sorted ==> ParseIdentifier(p.name, patt) == Some(p.id)
    ensures forall k :: 0 <= k < |plan| ==>
      ParseIdentifier(plan[k].0, patt).Some? &&
      plan[k].1 == EntryTarget(template, NumberedId(ParseIdentifier(plan[k].0, patt).value, k, useParsed, startSeason, startEpisode), k + 1, plan[k].0)
  {
    forall k | 0 <= k < |plan|
      ensures ParseIdentifier(plan[k].0, patt).Some? &&
        plan[k].1 == EntryTarget(template, NumberedId(ParseIdentifier(plan[k].0, patt).value, k, useParsed, startSeason, startEpisode), k + 1, plan[k].0)
    {
      assert sorted[k] in sorted;
      PlanTargetAt(sorted, plan, template, useParsed, startSeason, startEpisode, patt, k);
    }
  }

  lemma PlanTargetAt(sorted: seq<Parsed>, plan: seq<(string, string)>, template: seq<Piece>,
                     useParsed: bool, startSeason: int, startEpisode: int, patt: Pattern, k: nat)
    requires k < |plan| && Sources(plan) == Names(sorted)
    requires plan[k].1 == TargetOf(template)(NumberedId(sorted[k].id, k, useParsed, startSeason, startEpisode), k + 1, sorted[k].name)
    requires ParseIdentifier(sorted[k].name, patt) == Some(sorted[k].id)
    ensures ParseIdentifier(plan[k].0, patt).Some? &&
      plan[k].1 == EntryTarget(template, NumberedId(ParseIdentifier(plan[k].0, patt).value, k, useParsed, startSeason, startEpisode), k + 1, plan[k].0)
  {
    assert Names(sorted)[k] == plan[k].0;
    TargetOfApplies(template, NumberedId(sorted[k].id, k, useParsed, startSeason, startEpisode), k + 1, sorted[k].name);
  }

  lemma ExampleParse(name: string)
    requires name == "S01E01.mkv"
    ensures ParseIdentifier(name, RenameDefault) == Some(Ident(1, 1, ""))
  {
    var d, rest := "01", ".mkv";
    assert name == "" + "S" + d + "E" + d + rest;
    assert DigitsValue(d) == 1 by { assert d[..1] == "0"; }
    RenameDefaultReads(name, "", d, d, rest);
    assert OptionalLetter(rest, 0) == "" && Upper("") == "";
  }

  lemma ExampleExt(name: string, ext: string)
    requires name == "S01E01.mkv" && ext == "mkv"
    ensures Ext(name) == "." + ext
  {
    assert forall i :: 0 <= i < |name| ==> name[i] != '/';
    assert LastIndexOf(name, '/') == -1;
    assert name[6] == '.' && name[7] != '.' && name[8] != '.' && name[9] != '.';
    assert LastIndexOf(name, '.') == 6;
    assert name[0] != '.';
    assert name[6..] == ".mkv";
  }

  /** A template of text, placeholder, text, placeholder formats piece by piece. */
  lemma RenderFour(a: string, s1: Slot, b: string, s2: Slot, f: Fields)
    ensures Render([Text(a), Field(s1), Text(b), Field(s2)], f) == a + SlotText(f, s1) + b + SlotText(f, s2)
  {
    var t4 := [Field(s2)];
    var t3 := [Text(b), Field(s2)];
    var t2 := [Field(s1), Text(b), Field(s2)];
    var t := [Text(a), Field(s1), Text(b), Field(s2)];
    assert t4[1..] == [];
    assert Render(t4, f) == SlotText(f, s2);
    assert t3[1..] == t4;
    assert Render(t3, f) == b + SlotText(f, s2);
    assert t2[1..] == t3;
    assert Render(t2, f) == SlotText(f, s1) + (b + SlotText(f, s2));
    assert t[1..] == t2;
    assert Render(t, f) == a + (SlotText(f, s1) + (b + SlotText(f, s2)));
  }

  lemma ExampleRender(template: seq<Piece>, id: Ident, ext: string, rendered: string)
    requires template == DefaultTemplate && id == Ident(1, 1, "")
    requires rendered == "Episode 1 Staffel 1"
    ensures RenderNewName(template, id.season, id.episode, id.part, 1, ext) == rendered
  {
    var f := Fields(id.season, id.episode, id.part, 1, ext);
    RenderFour("Episode ", EpisodeSlot, " Staffel ", SeasonSlot, f);
    FirstEpisodeText(f);
    ExampleWords(rendered);
  }

  lemma FirstEpisodeText(f: Fields)
    requires f.season == 1 && f.episode == 1
    ensures SlotText(f, EpisodeSlot) == "1" && SlotText(f, SeasonSlot) == "1"
  {
    assert Decimal(1) == "1";
  }

  lemma ExampleWords(rendered: string)
    requires rendered == "Episode 1 Staffel 1"
    ensures "Episode " + "1" + " Staffel " + "1" == rendered
  {
  }

  lemma DefaultTemplateWellFormed(template: seq<Piece>)
    requires template == DefaultTemplate
    ensures WellFormed(template) && Field(ExtSlot) !in template
  {
    assert NoBraces("Episode ") && NoBraces(" Staffel ");
  }

  /**
   * A template without `{ext}` whose rendering does not end in the file's
   * extension gets the extension appended.
   */
  lemma EntryTargetAppends(template: seq<Piece>, id: Ident, index: int, name: string, ext: string, rendered: string)
    requires WellFormed(template) && Field(ExtSlot) !in template
    requires Ext(name) == "." + ext && ext != "" && ext[0] != '.'
    requires RenderNewName(template, id.season, id.episode, id.part, index, ext) == rendered
    requires !EndsWith(rendered, "." + ext)
    ensures EntryTarget(template, id, index, name) == rendered + ("." + ext)
  {
    StripOneDot(Ext(name), ext);
    AppendsWhenUnplaced(template, rendered, Ext(name), ext);
  }

  lemma AppendsWhenUnplaced(template: seq<Piece>, rendered: string, dotted: string, ext: string)
    requires WellFormed(template) && Field(ExtSlot) !in template
    requires dotted != "" && StripLeading(dotted, '.') == ext
    requires !EndsWith(rendered, "." + ext)
    ensures TargetName(template, rendered, dotted) == rendered + ("." + ext)
  {
    ExtSuffixRule(template, rendered, dotted);
    assert rendered + "." + ext == rendered + ("." + ext);
  }

  /** Stripping the dots from `.` + ext, where ext starts with no dot, leaves ext. */
  lemma StripOneDot(dotted: string, ext: string)
    requires dotted == "." + ext && ext != "" && ext[0] != '.'
    ensures StripLeading(dotted, '.') == ext
  {
    assert dotted[1..] == ext;
  }

  lemma ExampleRenderedHasNoExt(rendered: string, ext: string)
    requires rendered == "Episode 1 Staffel 1" && ext == "mkv"
    ensures !EndsWith(rendered, "." + ext)
  {
    assert rendered[|rendered| - 4] == 'e';
  }

  lemma ExampleJoin(rendered: string, ext: string, target: string)
    requires rendered == "Episode 1 Staffel 1" && ext == "mkv" && target == "Episode 1 Staffel 1.mkv"
    ensures rendered + ("." + ext) == target
  {
  }

  lemma ExampleTarget(template: seq<Piece>, id: Ident, name: string, target: string)
    requires template == DefaultTemplate && id == Ident(1, 1, "")
    requires name == "S01E01.mkv" && target == "Episode 1 Staffel 1.mkv"
    ensures EntryTarget(template, id, 1, name) == target
  {
    var rendered := "Episode 1 Staffel 1";
    var ext := "mkv";
    ExampleExt(name, ext);
    ExampleRender(template, id, ext, rendered);
    DefaultTemplateWellFormed(template);
    ExampleRenderedHasNoExt(rendered, ext);
    EntryTargetAppends(template, id, 1, name, ext, rendered);
    ExampleJoin(rendered, ext, target);
  }

  /** A single parsed file in parsed mode is renamed to its own target with index 1. */
  lemma PlanOfOne(p: Parsed, template: seq<Piece>, startSeason: int, startEpisode: int, target: string)
    requires TargetOf(template)(p.id, 1, p.name) == target
    ensures PlanFrom([p], template, true, startSeason, startEpisode) == [(p.name, target)]
  {
    var plan := PlanFrom([p], template, true, startSeason, startEpisode);
    PlanFromSpec([p], template, true, startSeason, startEpisode);
    assert Sources(plan)[0] == Names([p])[0];
    SingletonSeq(plan, (p.name, target));
  }

  lemma ExamplePlanInput(name: string)
    requires name == "S01E01.mkv"
    ensures Sort(ParseAll([name], ParserOf(RenameDefault)), SortKeyLe) == [Parsed(name, Ident(1, 1, ""))]
  {
    ExampleParse(name);
    var p := Parsed(name, Ident(1, 1, ""));
    assert [name][1..] == [];
    assert ParseAll([name], ParserOf(RenameDefault)) == [p];
  }

  lemma ExamplePlanA(files: seq<string>, name: string, target: string)
    requires name == "S01E01.mkv" && files == [name] && target == "Episode 1 Staffel 1.mkv"
    ensures ComputePlan(files, RenameDefault, DefaultTemplate, true, 1, 1) == PlanFrom([Parsed(name, Ident(1, 1, ""))], DefaultTemplate, true, 1, 1)
  {
    ExamplePlanInput(name);
    var parsed := ParseAll(files, ParserOf(RenameDefault));
    assert |parsed| == |Sort(parsed, SortKeyLe)| == 1;
  }

  lemma ExamplePlanB(p: Parsed, template: seq<Piece>, target: string)
    requires p.name == "S01E01.mkv" && p.id == Ident(1, 1, "")
    requires template == DefaultTemplate && target == "Episode 1 Staffel 1.mkv"
    ensures PlanFrom([p], template, true, 1, 1) == [(p.name, target)]
  {
    ExampleTarget(template, p.id, p.name, target);
    TargetOfApplies(template, p.id, 1, p.name);
    PlanOfOne(p, template, 1, 1, target);
  }

  /**
   * The default template in parsed mode renames `S01E01.mkv` to
   * `Episode 1 Staffel 1.mkv`: the extension is appended because the
   * template does not place it.
   */
  lemma DefaultTemplateExample()
    ensures ComputePlan(["S01E01.mkv"], RenameDefault, DefaultTemplate, true, 1, 1)
      == [("S01E01.mkv", "Episode 1 Staffel 1.mkv")]
  {
    ExamplePlanA(["S01E01.mkv"], "S01E01.mkv", "Episode 1 Staffel 1.mkv");
    ExamplePlanB(Parsed("S01E01.mkv", Ident(1, 1, "")), DefaultTemplate, "Episode 1 Staffel 1.mkv");
  }
}
