/**
 * The output-ID shape of the merge tab: a sample such as `S01E10` fixes the
 * separator between the season and episode numbers and the zero-padded width
 * of each, and `FormatOutputId` renders any season/episode in that shape.
 */
module OutputId {
  import opened Strings

  /** `(separator, season width, episode width)`. */
  datatype Shape = Shape(separator: string, seasonWidth: int, episodeWidth: int)

  const DefaultShape: Shape := Shape("E", 2, 2)

  /** The maximal run of digits `s` starts with. */
  function DigitPrefix(s: string): (r: string)
    ensures |r| <= |s| && r == s[..|r|] && AllDigits(r)
    ensures |r| < |s| ==> !IsDigit(s[|r|])
  {
    if |s| > 0 && IsDigit(s[0]) then [s[0]] + DigitPrefix(s[1..]) else ""
  }

  /** The maximal run of non-digits `s` starts with. */
  function NonDigitPrefix(s: string): (r: string)
    ensures |r| <= |s| && r == s[..|r|] && NoDigits(r)
    ensures |r| < |s| ==> IsDigit(s[|r|])
  {
    if |s| > 0 && !IsDigit(s[0]) then [s[0]] + NonDigitPrefix(s[1..]) else ""
  }

  /**
   * Whether `(?i)^s(?P<body>.+)$` matches the stripped sample: a leading `s`
   * or `S` and a non-empty rest in which `.` never meets a newline.
   */
  predicate HasSampleBody(text: string) {
    && |text| >= 2
    && (text[0] == 's' || text[0] == 'S')
    && forall i :: 1 <= i < |text| ==> text[i] != '\n'
  }

  /** The shape of an all-digit body of length `n`. */
  function AllDigitShape(n: nat): (shape: Shape)
    ensures shape.seasonWidth >= 1 && shape.episodeWidth >= 1
  {
    if n >= 4 then
      if n % 2 == 0 then Shape("", n / 2, n / 2) else Shape("", n - 2, 2)
    else if n == 3 then Shape("", 1, 2)
    else if n == 2 then Shape("", 1, 1)
    else DefaultShape
  }

  /**
   * The shape of the body after the leading `s`: digits, a non-digit
   * separator and digits (`^(?P<s>\d+)(?P<sep>\D+)(?P<e>\d+)$`), else digits
   * alone split by length, else the default.
   */
  function BodyShape(body: string): (shape: Shape)
    ensures shape.seasonWidth >= 1 && shape.episodeWidth >= 1
  {
    var d1 := DigitPrefix(body);
    var sep := NonDigitPrefix(body[|d1|..]);
    var d2 := body[|d1| + |sep|..];
    if |d1| > 0 && |sep| > 0 && |d2| > 0 && AllDigits(d2) then Shape(sep, |d1|, |d2|)
    else if AllDigits(body) then AllDigitShape(|body|)
    else DefaultShape
  }

  /**
   * `parse_output_id_sample`: the stripped sample must be `s`/`S` and a body;
   * anything else gives the default shape `("E", 2, 2)`.
   */
  function ParseOutputIdSample(sample: string): (shape: Shape)
    ensures shape.seasonWidth >= 1 && shape.episodeWidth >= 1
    ensures |Strip(sample)| == 0 ==> shape == DefaultShape
    ensures |Strip(sample)| == 1 ==> shape == DefaultShape
    ensures |Strip(sample)| > 0 && Strip(sample)[0] != 's' && Strip(sample)[0] != 'S' ==> shape == DefaultShape
  {
    if |sample| == 0 then DefaultShape
    else
      var text := Strip(sample);
      if HasSampleBody(text) then BodyShape(text[1..]) else DefaultShape
  }

  /** The length of a zero-padded field: the width, or the number's own length if longer. */
  function FieldLength(n: nat, width: int): nat {
    if width > |Decimal(n)| then width else |Decimal(n)|
  }

  /**
   * `format_output_id`: "S", the season zero-padded to the season width, the
   * separator, the episode zero-padded to the episode width. Reading the two
   * digit fields back yields the numbers; a field is never shorter than the
   * number's own decimal spelling, so nothing is truncated.
   */
  function FormatOutputId(season: int, episode: int, shape: Shape): (r: string)
    ensures |r| >= 1 && r[0] == 'S'
    ensures season >= 0 && episode >= 0 ==>
      var sl := FieldLength(season, shape.seasonWidth);
      && |r| == 1 + sl + |shape.separator| + FieldLength(episode, shape.episodeWidth)
      && AllDigits(r[1..1 + sl]) && DigitsValue(r[1..1 + sl]) == season
      && r[1 + sl..1 + sl + |shape.separator|] == shape.separator
      && AllDigits(r[1 + sl + |shape.separator|..]) && DigitsValue(r[1 + sl + |shape.separator|..]) == episode
  {
    var s := PadInt(season, shape.seasonWidth);
    var e := PadInt(episode, shape.episodeWidth);
    if season >= 0 && episode >= 0 then
      ReadBackFields(s, shape.separator, e, season, episode);
      "S" + s + shape.separator + e
    else
      "S" + s + shape.separator + e
  }

  /**
   * A field as `{n:0{w}d}` spells it: for `n >= 0` the digits of `n`
   * zero-padded to the width; for a negative `n` a minus sign and the digits
   * of `-n` zero-padded to one less, since the sign counts toward the width.
   */
  predicate SignedField(f: string, n: int, width: int) {
    if n >= 0 then |f| == FieldLength(n, width) && AllDigits(f) && DigitsValue(f) == n
    else |f| == 1 + FieldLength(-n, width - 1) && f[0] == '-' && AllDigits(f[1..]) && DigitsValue(f[1..]) == -n
  }

  /** For numbers of either sign, the output id is "S", the season field, the separator and the episode field. */
  lemma FormatOutputIdFields(season: int, episode: int, shape: Shape)
    ensures exists f1, f2 ::
      && FormatOutputId(season, episode, shape) == "S" + f1 + shape.separator + f2
      && SignedField(f1, season, shape.seasonWidth)
      && SignedField(f2, episode, shape.episodeWidth)
  {
    var f1 := PadInt(season, shape.seasonWidth);
    var f2 := PadInt(episode, shape.episodeWidth);
    PadIntField(season, shape.seasonWidth);
    PadIntField(episode, shape.episodeWidth);
  }

  /** `PadInt` spells a field of either sign as `{n:0{w}d}` does. */
  lemma PadIntField(n: int, width: int)
    ensures SignedField(PadInt(n, width), n, width)
  {
    if n < 0 {
      var digits := PadDigits(-n, width - 1);
      assert PadInt(n, width) == "-" + digits;
      assert ("-" + digits)[1..] == digits;
    }
  }

  /** The digit fields of "S" + s + sep + e, read back. */
  lemma ReadBackFields(s: string, sep: string, e: string, season: nat, episode: nat)
    requires AllDigits(s) && DigitsValue(s) == season
    requires AllDigits(e) && DigitsValue(e) == episode
    ensures var r := "S" + s + sep + e;
      && |r| == 1 + |s| + |sep| + |e|
      && AllDigits(r[1..1 + |s|]) && DigitsValue(r[1..1 + |s|]) == season
      && r[1 + |s|..1 + |s| + |sep|] == sep
      && AllDigits(r[1 + |s| + |sep|..]) && DigitsValue(r[1 + |s| + |sep|..]) == episode
  {
    ThreeFields(s, sep, e);
  }

  lemma ThreeFields(a: string, sep: string, b: string)
    ensures var r := "S" + a + sep + b;
      && |r| == 1 + |a| + |sep| + |b|
      && r[1..1 + |a|] == a && r[1 + |a|..1 + |a| + |sep|] == sep && r[1 + |a| + |sep|..] == b
  {
    var r := "S" + a + sep + b;
    assert r[1..1 + |a|] == a;
    assert r[1 + |a|..1 + |a| + |sep|] == sep;
    assert r[1 + |a| + |sep|..] == b;
  }

  lemma {:induction false} DigitPrefixOf(a: string, b: string)
    requires AllDigits(a)
    requires |b| == 0 || !IsDigit(b[0])
    ensures DigitPrefix(a + b) == a
    decreases |a|
  {
    if |a| > 0 {
      assert (a + b)[1..] == a[1..] + b;
      DigitPrefixOf(a[1..], b);
    } else {
      assert a + b == b;
    }
  }

  lemma {:induction false} NonDigitPrefixOf(a: string, b: string)
    requires NoDigits(a)
    requires |b| == 0 || IsDigit(b[0])
    ensures NonDigitPrefix(a + b) == a
    decreases |a|
  {
    if |a| > 0 {
      assert (a + b)[1..] == a[1..] + b;
      NonDigitPrefixOf(a[1..], b);
    } else {
      assert a + b == b;
    }
  }

  /** The sample is read through its body when it is already stripped and has one. */
  lemma ParseThroughBody(sample: string)
    requires |sample| >= 2 && sample[0] == 'S' && !IsSpace(sample[|sample| - 1])
    requires forall i :: 1 <= i < |sample| ==> sample[i] != '\n'
    ensures ParseOutputIdSample(sample) == BodyShape(sample[1..])
  {
    StripKeeps(sample);
  }

  /** Formatting the values of two digit runs with their own lengths as widths reproduces them. */
  lemma FormatDigitRuns(d1: string, sep: string, d2: string)
    requires |d1| > 0 && AllDigits(d1) && |d2| > 0 && AllDigits(d2)
    ensures FormatOutputId(DigitsValue(d1), DigitsValue(d2), Shape(sep, |d1|, |d2|)) == "S" + d1 + sep + d2
  {
    var v1, v2 := DigitsValue(d1), DigitsValue(d2);
    FormatOutputIdPieces(v1, v2, Shape(sep, |d1|, |d2|));
    PadDigitsRoundTrip(d1);
    PadDigitsRoundTrip(d2);
  }

  /** For non-negative numbers the output ID is "S" and the two padded digit runs around the separator. */
  lemma FormatOutputIdPieces(season: nat, episode: nat, shape: Shape)
    ensures FormatOutputId(season, episode, shape)
      == "S" + PadDigits(season, shape.seasonWidth) + shape.separator + PadDigits(episode, shape.episodeWidth)
  {
  }

  lemma SeparatedBodyShape(d1: string, sep: string, d2: string)
    requires |d1| > 0 && AllDigits(d1) && |d2| > 0 && AllDigits(d2)
    requires |sep| > 0 && NoDigits(sep)
    ensures BodyShape(d1 + (sep + d2)) == Shape(sep, |d1|, |d2|)
  {
    var body := d1 + (sep + d2);
    DigitPrefixOf(d1, sep + d2);
    assert body[|d1|..] == sep + d2;
    NonDigitPrefixOf(sep, d2);
    assert body[|d1| + |sep|..] == d2;
  }

  lemma NoNewline(d1: string, sep: string, d2: string)
    requires AllDigits(d1) && AllDigits(d2)
    requires forall i :: 0 <= i < |sep| ==> sep[i] != '\n'
    ensures var sample := "S" + d1 + sep + d2; forall i :: 1 <= i < |sample| ==> sample[i] != '\n'
  {
    var sample := "S" + d1 + sep + d2;
    forall i | 1 <= i < |sample|
      ensures sample[i] != '\n'
    {
      if i <= |d1| {
        assert sample[i] == d1[i - 1];
      } else if i <= |d1| + |sep| {
        assert sample[i] == sep[i - 1 - |d1|];
      } else {
        assert sample[i] == d2[i - 1 - |d1| - |sep|];
      }
    }
  }

  lemma SampleTail(d1: string, sep: string, d2: string)
    ensures ("S" + d1 + sep + d2)[1..] == d1 + (sep + d2)
  {
  }

  lemma SeparatedSampleShape(sample: string, d1: string, sep: string, d2: string)
    requires sample == "S" + d1 + sep + d2
    requires |d1| > 0 && AllDigits(d1) && |d2| > 0 && AllDigits(d2)
    requires |sep| > 0 && NoDigits(sep) && forall i :: 0 <= i < |sep| ==> sep[i] != '\n'
    ensures ParseOutputIdSample(sample) == Shape(sep, |d1|, |d2|)
  {
    NoNewline(d1, sep, d2);
    assert sample[|sample| - 1] == d2[|d2| - 1];
    SampleTail(d1, sep, d2);
    ParseThroughBody(sample);
    SeparatedBodyShape(d1, sep, d2);
  }

  /**
   * A sample "S" + digits + separator + digits has the separator and the two
   * digit-run lengths as its shape, and formatting the sample's own season
   * and episode numbers in that shape gives back the sample exactly.
   */
  lemma SeparatedSampleRoundTrip(sample: string, d1: string, sep: string, d2: string)
    requires sample == "S" + d1 + sep + d2
    requires |d1| > 0 && AllDigits(d1) && |d2| > 0 && AllDigits(d2)
    requires |sep| > 0 && NoDigits(sep) && forall i :: 0 <= i < |sep| ==> sep[i] != '\n'
    ensures ParseOutputIdSample(sample) == Shape(sep, |d1|, |d2|)
    ensures FormatOutputId(DigitsValue(d1), DigitsValue(d2), ParseOutputIdSample(sample)) == sample
  {
    SeparatedSampleShape(sample, d1, sep, d2);
    FormatDigitRuns(d1, sep, d2);
  }

  /**
   * A sample "S" + n digits, n >= 2, has an empty separator and widths that
   * split the n digits: halves for even n >= 4, the last two digits as the
   * episode for odd n >= 5, 1+2 for three digits, 1+1 for two.
   */
  lemma AllDigitSampleShape(body: string)
    requires |body| >= 2 && AllDigits(body)
    ensures var shape := ParseOutputIdSample("S" + body);
      && shape.separator == ""
      && 1 <= shape.seasonWidth && 1 <= shape.episodeWidth
      && shape.seasonWidth + shape.episodeWidth == |body|
      && (|body| >= 4 && |body| % 2 == 0 ==> shape.seasonWidth == shape.episodeWidth)
      && (|body| >= 4 && |body| % 2 == 1 ==> shape.episodeWidth == 2)
      && (|body| == 3 ==> shape.seasonWidth == 1 && shape.episodeWidth == 2)
      && (|body| == 2 ==> shape.seasonWidth == 1 && shape.episodeWidth == 1)
  {
    AllDigitSampleBody(body);
    AllDigitBodyShape(body);
  }

  /** An all-digit sample is read through its body. */
  lemma AllDigitSampleBody(body: string)
    requires |body| >= 2 && AllDigits(body)
    ensures ParseOutputIdSample("S" + body) == BodyShape(body)
  {
    var sample := "S" + body;
    forall i | 1 <= i < |sample|
      ensures sample[i] != '\n'
    {
      assert sample[i] == body[i - 1];
    }
    assert sample[|sample| - 1] == body[|body| - 1];
    ParseThroughBody(sample);
    assert sample[1..] == body;
  }

  /** A body of digits alone has no separator, so it is split by its length. */
  lemma AllDigitBodyShape(body: string)
    requires |body| >= 2 && AllDigits(body)
    ensures BodyShape(body) == AllDigitShape(|body|)
  {
    DigitPrefixOf(body, "");
    assert body + "" == body;
  }

  /**
   * Formatting the two digit runs' numbers in the shape of an all-digit
   * sample gives back the sample.
   */
  lemma AllDigitSampleRoundTrip(body: string)
    requires |body| >= 2 && AllDigits(body)
    ensures var shape := ParseOutputIdSample("S" + body);
      && 0 < shape.seasonWidth < |body|
      && FormatOutputId(DigitsValue(body[..shape.seasonWidth]), DigitsValue(body[shape.seasonWidth..]), shape) == "S" + body
  {
    AllDigitSampleBody(body);
    AllDigitBodyShape(body);
    AllDigitShapeSplit(|body|);
    var shape := ParseOutputIdSample("S" + body);
    var w := shape.seasonWidth;
    var d1, d2 := body[..w], body[w..];
    assert AllDigits(d1) && AllDigits(d2) by {
      DigitSlices(body, w);
    }
    assert shape == Shape("", |d1|, |d2|);
    FormatDigitRuns(d1, "", d2);
    Rejoin(body, w);
  }

  /** An all-digit shape splits its `n` digits into two non-empty runs. */
  lemma AllDigitShapeSplit(n: nat)
    requires n >= 2
    ensures var shape := AllDigitShape(n);
      shape.separator == "" && 0 < shape.seasonWidth < n && shape.episodeWidth == n - shape.seasonWidth
  {
  }

  lemma DigitSlices(body: string, w: nat)
    requires AllDigits(body) && w <= |body|
    ensures AllDigits(body[..w]) && AllDigits(body[w..])
  {
    assert forall i :: 0 <= i < |body[w..]| ==> body[w..][i] == body[w + i];
  }

  lemma Rejoin(body: string, w: nat)
    requires w <= |body|
    ensures "S" + body[..w] + "" + body[w..] == "S" + body
  {
    assert body[..w] + body[w..] == body;
  }

  /** A single digit after the `S` is not a recognised shape. */
  lemma OneDigitSampleIsDefault(c: char)
    requires IsDigit(c)
    ensures ParseOutputIdSample(['S', c]) == DefaultShape
  {
    ParseThroughBody(['S', c]);
    DigitPrefixOf([c], "");
    assert [c] + "" == [c];
  }

  /**
   * Whether a body is digits, a non-digit separator and digits, the form
   * `^(?P<s>\d+)(?P<sep>\D+)(?P<e>\d+)$` matches.
   */
  predicate SeparatedDigits(body: string) {
    exists i, j :: 0 < i < j < |body| && AllDigits(body[..i]) && NoDigits(body[i..j]) && AllDigits(body[j..])
  }

  /** A body that is neither separated digits nor all digits falls through to the default shape. */
  lemma UnshapedBodyIsDefault(body: string)
    requires !SeparatedDigits(body) && !AllDigits(body)
    ensures BodyShape(body) == DefaultShape
  {
    var d1 := DigitPrefix(body);
    var sep := NonDigitPrefix(body[|d1|..]);
    var i, j := |d1|, |d1| + |sep|;
    assert body[..i] == d1 && body[i..j] == sep;
  }

  /**
   * The fall-through of `parse_output_id_sample`: a stripped sample that has
   * a body after its `s`, but a body that is neither separated digits nor
   * all digits, gives the default shape.
   */
  lemma UnshapedSampleIsDefault(sample: string)
    requires HasSampleBody(Strip(sample))
    requires !SeparatedDigits(Strip(sample)[1..]) && !AllDigits(Strip(sample)[1..])
    ensures ParseOutputIdSample(sample) == DefaultShape
  {
    UnshapedBodyIsDefault(Strip(sample)[1..]);
  }

  /** In particular a sample whose last character is not a digit, such as `S01E02x` or `Sab`, gives the default shape. */
  lemma LetterEndIsDefault(sample: string)
    requires HasSampleBody(Strip(sample)) && !IsDigit(Strip(sample)[|Strip(sample)| - 1])
    ensures ParseOutputIdSample(sample) == DefaultShape
  {
    var body := Strip(sample)[1..];
    assert body[|body| - 1] == Strip(sample)[|Strip(sample)| - 1];
    forall i, j | 0 < i < j < |body| && AllDigits(body[..i]) && NoDigits(body[i..j])
      ensures !AllDigits(body[j..])
    {
      assert body[j..][|body| - 1 - j] == body[|body| - 1];
    }
    UnshapedSampleIsDefault(sample);
  }

  /** `S01E02x`: the episode run is followed by a letter, so the default shape. */
  lemma TrailingLetterExample(sample: string)
    requires sample == "S" + "01E02x"
    ensures ParseOutputIdSample(sample) == DefaultShape
  {
    StripKeeps(sample);
    LetterEndIsDefault(sample);
  }

  /** `Sab`: no digits at all, so the default shape. */
  lemma NoDigitsExample(sample: string)
    requires sample == "S" + "ab"
    ensures ParseOutputIdSample(sample) == DefaultShape
  {
    StripKeeps(sample);
    LetterEndIsDefault(sample);
  }

  /** The merge tab's default sample `S01E10` has the default shape. */
  lemma DefaultSampleShape()
    ensures ParseOutputIdSample("S01E10") == Shape("E", 2, 2)
  {
    SeparatedSampleShape("S01E10", "01", "E", "10");
  }

  /** Season 1, episode 1 in the default shape. */
  lemma DefaultShapeFormat()
    ensures FormatOutputId(1, 1, Shape("E", 2, 2)) == "S01E01"
  {
    FormatDigitRuns("01", "E", "01");
    assert "S" + "01" + "E" + "01" == "S01E01";
    assert DigitsValue("01") == 1;
  }

  /** A separator of several characters, and widths taken from the sample, not defaulted. */
  lemma DashSampleShape()
    ensures ParseOutputIdSample("S1-E02") == Shape("-E", 1, 2)
  {
    SeparatedSampleShape("S1-E02", "1", "-E", "02");
  }

  /** A season width of 1 keeps a one-digit season unpadded. */
  lemma DashShapeFormat()
    ensures FormatOutputId(1, 5, Shape("-E", 1, 2)) == "S1-E05"
  {
    FormatDigitRuns("1", "-E", "05");
    assert "S" + "1" + "-E" + "05" == "S1-E05";
    assert DigitsValue("1") == 1 && DigitsValue("05") == 5;
  }
}
