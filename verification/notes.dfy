/**
 * The notes converter behind the "convert to Markdown" button: raw speaker
 * notes, one slide per segment, segments separated by a line holding only
 * `---`, become one Markdown document with a numbered heading per slide.
 */
module Notes {
  import opened Results
  import opened Text
  import opened Splitting
  import Decimal

  /** The segment delimiter: `---` alone on a line, line feeds only. */
  const Delimiter: string := "\n---\n"

  /** What stands between two rendered slides. */
  const Separator: string := "\n\n---\n\n"

  /** The heading of the first slide. */
  const FirstHeading: string := "## スライド 1\n\n"

  datatype ConvertError =
    | EmptyInput      // nothing but whitespace was pasted
    | NoValidSlides   // something was pasted, but every segment is blank

  /** `s.trim() === ''`: the test both for the whole input and for each
      segment. */
  predicate IsBlank(s: string) {
    Trim(s) == []
  }

  /** The heading line of slide `n` and the blank line after it. */
  function Heading(n: nat): string {
    "## スライド " + Decimal.Show(n) + "\n\n"
  }

  /** The segments of the raw notes: `rawNotes.split(/\n---\n/)`. */
  function Pieces(raw: string): seq<string> {
    Split(raw, Delimiter)
  }

  /** `pieces.filter(p => p.trim() !== '')`. */
  function Survivors(pieces: seq<string>): seq<string> {
    if pieces == [] then []
    else (if IsBlank(pieces[0]) then [] else [pieces[0]]) + Survivors(pieces[1..])
  }

  /** `ix` lists, in ascending order, exactly the indices at or after `k` of
      the pieces that are not blank. */
  ghost predicate ListsNonBlank(ix: seq<nat>, pieces: seq<string>, k: nat) {
    && (forall t :: 0 <= t < |ix| ==> k <= ix[t] < |pieces| && !IsBlank(pieces[ix[t]]))
    && (forall t, u :: 0 <= t < u < |ix| ==> ix[t] < ix[u])
    && (forall j :: k <= j < |pieces| && !IsBlank(pieces[j]) ==> j in ix)
  }

  /** Filtering from index `k` decides piece `k`, then filters the rest. */
  lemma SurvivorsStep(pieces: seq<string>, k: nat)
    requires k < |pieces|
    ensures Survivors(pieces[k..])
         == (if IsBlank(pieces[k]) then [] else [pieces[k]]) + Survivors(pieces[k + 1..])
  {
    assert pieces[k..][1..] == pieces[k + 1..];
  }

  /** Extending a listing from `k + 1` down to `k`: a blank piece `k` is
      skipped, a non-blank one is listed first. */
  lemma ListsNonBlankStep(ix: seq<nat>, pieces: seq<string>, k: nat)
    requires k < |pieces| && ListsNonBlank(ix, pieces, k + 1)
    ensures IsBlank(pieces[k]) ==> ListsNonBlank(ix, pieces, k)
    ensures !IsBlank(pieces[k]) ==> ListsNonBlank([k] + ix, pieces, k)
  {
    var jx := [k] + ix;
    assert forall t :: 0 < t < |jx| ==> jx[t] == ix[t - 1];
  }

  /** The survivors from index `k` on are the non-blank pieces from `k` on,
      in their original order: `ix` lists where each comes from. */
  lemma {:induction false} SurvivorIndicesFrom(pieces: seq<string>, k: nat) returns (ix: seq<nat>)
    requires k <= |pieces|
    ensures ListsNonBlank(ix, pieces, k)
    ensures |ix| == |Survivors(pieces[k..])|
    ensures forall t :: 0 <= t < |ix| ==> Survivors(pieces[k..])[t] == pieces[ix[t]]
    decreases |pieces| - k
  {
    if k == |pieces| {
      ix := [];
    } else {
      var rest := SurvivorIndicesFrom(pieces, k + 1);
      var here, later := Survivors(pieces[k..]), Survivors(pieces[k + 1..]);
      SurvivorsStep(pieces, k);
      ListsNonBlankStep(rest, pieces, k);
      if IsBlank(pieces[k]) {
        assert here == later;
        ix := rest;
      } else {
        assert here == [pieces[k]] + later;
        ix := [k] + rest;
        ConsListing(pieces, k, later, rest);
      }
    }
  }

  /** Putting piece `k` in front of a listing keeps every entry pointing at
      its piece. */
  lemma ConsListing(pieces: seq<string>, k: nat, later: seq<string>, rest: seq<nat>)
    requires k < |pieces| && |rest| == |later|
    requires forall t :: 0 <= t < |rest| ==> rest[t] < |pieces| && later[t] == pieces[rest[t]]
    ensures forall t :: 0 <= t < |rest| + 1 ==> ([pieces[k]] + later)[t] == pieces[([k] + rest)[t]]
  {
    forall t | 0 < t < |rest| + 1 ensures ([pieces[k]] + later)[t] == pieces[([k] + rest)[t]] {
      assert ([pieces[k]] + later)[t] == later[t - 1];
      assert ([k] + rest)[t] == rest[t - 1];
    }
  }

  /** The survivors are the non-blank pieces, each once, in their original
      order: `ix` lists the index each survivor comes from. */
  lemma SurvivorIndices(pieces: seq<string>) returns (ix: seq<nat>)
    ensures ListsNonBlank(ix, pieces, 0)
    ensures |ix| == |Survivors(pieces)|
    ensures forall t :: 0 <= t < |ix| ==> Survivors(pieces)[t] == pieces[ix[t]]
  {
    ix := SurvivorIndicesFrom(pieces, 0);
    assert pieces[0..] == pieces;
  }

  /** The segments that become slides. */
  function Slides(raw: string): seq<string> {
    Survivors(Pieces(raw))
  }

  /** Slide `t + 1` rendered from the `t`-th surviving segment. */
  function Blocks(slides: seq<string>): seq<string> {
    seq(|slides|, t requires 0 <= t < |slides| => Heading(t + 1) + Trim(slides[t]))
  }

  /** The document for the surviving segments: their blocks, in order,
      joined by the separator.  It opens with the first slide's heading. */
  function Render(slides: seq<string>): (out: string)
    requires |slides| >= 1
    ensures |out| >= |FirstHeading| && out[..|FirstHeading|] == FirstHeading
  {
    var blocks := Blocks(slides);
    assert Decimal.Show(1) == "1";
    assert blocks[0] == FirstHeading + Trim(slides[0]);
    JoinStartsWithFirst(blocks, Separator);
    Join(blocks, Separator)
  }

  /** No segment survives exactly when every segment is blank. */
  lemma {:induction false} NoSurvivors(pieces: seq<string>)
    ensures |Survivors(pieces)| == 0 <==> forall k :: 0 <= k < |pieces| ==> IsBlank(pieces[k])
    decreases |pieces|
  {
    if pieces != [] {
      NoSurvivors(pieces[1..]);
      assert forall k :: 1 <= k < |pieces| ==> pieces[k] == pieces[1..][k - 1];
    }
  }

  /** The converter.  Whitespace-only input is `EmptyInput`; input whose
      segments are all blank is `NoValidSlides`; anything else renders. */
  function Convert(raw: string): (r: Result<string, ConvertError>)
    ensures r == Failure(EmptyInput) <==> AllWhitespace(raw)
    ensures r == Failure(NoValidSlides) <==>
      !AllWhitespace(raw) && forall k :: 0 <= k < |Pieces(raw)| ==> IsBlank(Pieces(raw)[k])
    ensures r.Success? ==> |r.value| >= |FirstHeading| && r.value[..|FirstHeading|] == FirstHeading
  {
    if IsBlank(raw) then Failure(EmptyInput)
    else
      NoSurvivors(Pieces(raw));
      if |Slides(raw)| == 0 then Failure(NoValidSlides)
      else Success(Render(Slides(raw)))
  }

  /** A join starts with its first piece. */
  lemma JoinStartsWithFirst(ps: seq<string>, d: string)
    requires |ps| >= 1
    ensures |Join(ps, d)| >= |ps[0]| && Join(ps, d)[..|ps[0]|] == ps[0]
  {
  }

  /** A join ends with its last piece. */
  lemma {:induction false} JoinEndsWithLast(ps: seq<string>, d: string)
    requires |ps| >= 1
    ensures EndsWith(Join(ps, d), ps[|ps| - 1])
    decreases |ps|
  {
    if |ps| > 1 {
      JoinEndsWithLast(ps[1..], d);
      assert ps[1..][|ps| - 2] == ps[|ps| - 1];
    }
  }

  /** Two ascending sequences with the same elements are equal. */
  lemma {:induction false} AscendingUnique(a: seq<nat>, b: seq<nat>)
    requires forall t, u :: 0 <= t < u < |a| ==> a[t] < a[u]
    requires forall t, u :: 0 <= t < u < |b| ==> b[t] < b[u]
    requires forall x :: x in a <==> x in b
    ensures a == b
    decreases |a|
  {
    if |a| != 0 {
      assert a[0] in b;
      assert b[0] in a;
      assert a[0] == b[0];
      forall x ensures x in a[1..] <==> x in b[1..] {
        if x in a[1..] {
          assert x in a && x != a[0];
        }
        if x in b[1..] {
          assert x in b && x != b[0];
        }
      }
      AscendingUnique(a[1..], b[1..]);
      assert a == [a[0]] + a[1..] && b == [b[0]] + b[1..];
    } else {
      FirstIsMember(b);
    }
  }

  /** A non-empty sequence holds its first element. */
  lemma FirstIsMember(b: seq<nat>)
    ensures |b| > 0 ==> b[0] in b
  {
  }

  /** The listing of the non-blank pieces is unique, so the index each
      survivor comes from, and with it each slide's number, is determined by
      the pieces alone. */
  lemma ListingUnique(ix: seq<nat>, jx: seq<nat>, pieces: seq<string>)
    requires ListsNonBlank(ix, pieces, 0) && ListsNonBlank(jx, pieces, 0)
    ensures ix == jx
  {
    AscendingUnique(ix, jx);
  }

  /** The shape of a successful conversion: the slides joined by the
      separator, one slide per non-blank segment in input order (`ix` lists
      the segments), slide `t + 1` being its heading followed by the trimmed
      segment. */
  lemma ConvertRenders(raw: string) returns (ix: seq<nat>)
    requires Convert(raw).Success?
    ensures ListsNonBlank(ix, Pieces(raw), 0)
    ensures |ix| >= 1
    ensures Convert(raw).value == Join(Blocks(Slides(raw)), Separator)
    ensures |Blocks(Slides(raw))| == |ix|
    ensures forall t :: 0 <= t < |ix| ==>
              Blocks(Slides(raw))[t]
              == "## スライド " + Decimal.Show(t + 1) + "\n\n" + Trim(Pieces(raw)[ix[t]])
  {
    assert |Slides(raw)| >= 1 && Convert(raw).value == Render(Slides(raw));
    ix := BlocksOfSurvivors(Pieces(raw));
  }

  /** Block `t` of the survivors is numbered `t + 1` and holds the trimmed
      non-blank piece that `ix` lists at position `t`. */
  lemma BlocksOfSurvivors(pieces: seq<string>) returns (ix: seq<nat>)
    ensures ListsNonBlank(ix, pieces, 0)
    ensures |Blocks(Survivors(pieces))| == |ix|
    ensures forall t :: 0 <= t < |ix| ==>
              Blocks(Survivors(pieces))[t]
              == "## スライド " + Decimal.Show(t + 1) + "\n\n" + Trim(pieces[ix[t]])
  {
    ix := SurvivorIndices(pieces);
    var kept := Survivors(pieces);
    forall t | 0 <= t < |ix|
      ensures Blocks(kept)[t] == "## スライド " + Decimal.Show(t + 1) + "\n\n" + Trim(pieces[ix[t]])
    {
      assert kept[t] == pieces[ix[t]];
    }
  }

  /** The rendered document closes with the last slide's trimmed text. */
  lemma RenderEndsWithLastSlide(slides: seq<string>)
    requires |slides| >= 1
    ensures EndsWith(Render(slides), Trim(slides[|slides| - 1]))
  {
    var blocks := Blocks(slides);
    var body := Trim(slides[|slides| - 1]);
    var last := blocks[|blocks| - 1];
    assert EndsWith(last, body) by {
      assert last == Heading(|slides|) + body;
    }
    JoinEndsWithLast(blocks, Separator);
    EndsWithTrans(Join(blocks, Separator), last, body);
  }

  /** A suffix of a suffix is a suffix. */
  lemma EndsWithTrans(a: string, b: string, c: string)
    requires EndsWith(a, b) && EndsWith(b, c)
    ensures EndsWith(a, c)
  {
    assert a[|a| - |c|..] == b[|b| - |c|..];
  }

  /** Every surviving segment is non-blank. */
  lemma {:induction false} SurvivorsNonBlank(pieces: seq<string>)
    ensures forall t :: 0 <= t < |Survivors(pieces)| ==> !IsBlank(Survivors(pieces)[t])
    decreases |pieces|
  {
    if pieces != [] {
      SurvivorsNonBlank(pieces[1..]);
    }
  }

  /** A rendering of non-blank slides ends in a non-whitespace character,
      so it does not end with the separator. */
  lemma RenderNoTrailingSeparator(slides: seq<string>)
    requires |slides| >= 1 && !IsBlank(slides[|slides| - 1])
    ensures !EndsWith(Render(slides), Separator)
  {
    var out := Render(slides);
    var body := Trim(slides[|slides| - 1]);
    RenderEndsWithLastSlide(slides);
    assert !IsWhitespace(out[|out| - 1]) by {
      assert out[|out| - |body|..] == body;
      assert out[|out| - |body|..][|body| - 1] == out[|out| - 1];
    }
    assert IsWhitespace(Separator[|Separator| - 1]);
    if |Separator| <= |out| {
      assert out[|out| - |Separator|..][|Separator| - 1] == out[|out| - 1];
    }
  }

  /** A successful conversion has no leading or trailing separator: it opens
      with the first heading and closes with the last trimmed segment, whose
      last character is not whitespace. */
  lemma ConvertBoundaries(raw: string)
    requires Convert(raw).Success?
    ensures |Slides(raw)| >= 1
    ensures Convert(raw).value[..|FirstHeading|] == FirstHeading
    ensures EndsWith(Convert(raw).value, Trim(Slides(raw)[|Slides(raw)| - 1]))
    ensures !EndsWith(Convert(raw).value, Separator)
  {
    SurvivorsNonBlank(Pieces(raw));
    RenderEndsWithLastSlide(Slides(raw));
    RenderNoTrailingSeparator(Slides(raw));
  }

  /** Input without the delimiter is a single slide holding the whole
      trimmed input. */
  lemma ConvertWithoutDelimiter(raw: string)
    requires !AllWhitespace(raw)
    requires !Contains(raw, Delimiter)
    ensures Convert(raw) == Success(FirstHeading + Trim(raw))
  {
    assert Pieces(raw) == [raw] by {
      assert FirstIndex(raw, Delimiter).None?;
    }
    assert Slides(raw) == [raw] by {
      assert !IsBlank(raw);
      assert [raw][1..] == [];
      assert Survivors([raw]) == [raw];
    }
    RenderOne(raw);
  }

  /** A single slide renders as the first heading and its trimmed text. */
  lemma RenderOne(a: string)
    ensures Render([a]) == FirstHeading + Trim(a)
  {
    HeadingsOneTwo();
    assert Blocks([a]) == [FirstHeading + Trim(a)];
  }

  /** The first two headings, spelled out. */
  lemma HeadingsOneTwo()
    ensures Heading(1) == FirstHeading
    ensures Heading(2) == "## スライド 2\n\n"
  {
    assert Decimal.Show(1) == "1" && Decimal.Show(2) == "2";
  }

  /** Two slides render as two numbered blocks around one separator. */
  lemma RenderTwo(a: string, b: string)
    ensures Render([a, b]) == FirstHeading + Trim(a) + Separator + "## スライド 2\n\n" + Trim(b)
  {
    HeadingsOneTwo();
    var blocks := Blocks([a, b]);
    assert blocks == [FirstHeading + Trim(a), "## スライド 2\n\n" + Trim(b)];
    assert blocks[1..] == ["## スライド 2\n\n" + Trim(b)];
    assert Join(blocks, Separator) == blocks[0] + Separator + blocks[1];
  }

  /** Text without whitespace at either end is its own trimming, and is not
      blank unless empty. */
  lemma TrimmedFixed(m: string)
    requires Trimmed(m)
    ensures Trim(m) == m
  {
    TrimUnique([], m, []);
    assert [] + m + [] == m;
  }

  /** A piece without the delimiter that does not end in `\n---` cannot
      form the delimiter with the `\n---` that follows it. */
  lemma NoDelimiterAcrossJoin(p: string)
    requires !Contains(p, Delimiter)
    requires !EndsWith(p, "\n---")
    ensures !Contains(p + Delimiter[..|Delimiter| - 1], Delimiter)
  {
    var q := p + Delimiter[..|Delimiter| - 1];
    assert q == p + "\n---";
    forall j | 0 <= j <= |q| ensures !OccursAt(q, Delimiter, j) {
      if j + 5 <= |p| {
        assert q[j..j + 5] == p[j..j + 5];
        assert !OccursAt(p, Delimiter, j);
      } else if j + 4 > |p| && j + 5 <= |q| {
        assert q[j + 4] == '-';
        assert q[j..j + 5][4] == q[j + 4];
      } else if j + 5 <= |q| {
        assert q[j..j + 4] == p[|p| - 4..];
        assert q[j..j + 5][..4] == q[j..j + 4];
      }
    }
  }

  /** Notes joined with the delimiter (the text the extraction script shows)
      split back into exactly those notes, provided no note contains the
      delimiter and no note but the last ends in `\n---`. */
  lemma JoinedNotesSplitBack(notes: seq<string>)
    requires |notes| >= 1
    requires forall k :: 0 <= k < |notes| ==> !Contains(notes[k], Delimiter)
    requires forall k :: 0 <= k < |notes| - 1 ==> !EndsWith(notes[k], "\n---")
    ensures Split(Join(notes, Delimiter), Delimiter) == notes
  {
    assert IsSplitOf(notes, Join(notes, Delimiter), Delimiter) by {
      forall k | 0 <= k < |notes| - 1
        ensures !Contains(notes[k] + Delimiter[..|Delimiter| - 1], Delimiter)
      {
        NoDelimiterAcrossJoin(notes[k]);
      }
    }
    SplitUnique(notes, Join(notes, Delimiter), Delimiter);
  }

  /** Input that is not blank and keeps some slides renders them. */
  lemma ConvertOf(raw: string, slides: seq<string>)
    requires !IsBlank(raw) && Slides(raw) == slides && |slides| >= 1
    ensures Convert(raw) == Success(Render(slides))
  {
  }

  /** A two-slide input splits at its one delimiter. */
  lemma TwoSlidePieces()
    ensures Pieces("Point one.\n---\nPoint two.") == ["Point one.", "Point two."]
  {
    var one, two := "Point one.", "Point two.";
    MissingFirstCharNotContained(one, Delimiter);
    MissingFirstCharNotContained(two, Delimiter);
    assert Join([one, two], Delimiter) == "Point one.\n---\nPoint two.";
    JoinedNotesSplitBack([one, two]);
  }

  /** Both segments of a two-slide input survive the filter. */
  lemma TwoSlideSurvivors()
    ensures Slides("Point one.\n---\nPoint two.") == ["Point one.", "Point two."]
  {
    var one, two := "Point one.", "Point two.";
    TwoSlidePieces();
    SurvivorsOfTwo(one, two);
  }

  /** Two segments with text and no surrounding whitespace both survive. */
  lemma SurvivorsOfTwo(a: string, b: string)
    requires a != [] && Trimmed(a) && b != [] && Trimmed(b)
    ensures Survivors([a, b]) == [a, b]
  {
    TrimmedFixed(a);
    TrimmedFixed(b);
    assert !IsBlank(a) && !IsBlank(b);
    assert [a, b][1..] == [b] && [b][1..] == [];
    assert Survivors([b]) == [b];
  }

  /** A two-slide input: each segment becomes a numbered slide. */
  lemma ConvertTwoSlides()
    ensures Convert("Point one.\n---\nPoint two.")
         == Success(FirstHeading + "Point one." + Separator + "## スライド 2\n\n" + "Point two.")
  {
    var raw := "Point one.\n---\nPoint two.";
    TwoSlideSurvivors();
    assert raw[0] == 'P';
    ConvertTwo(raw, "Point one.", "Point two.");
  }

  /** Input that starts with text and keeps two trimmed segments renders
      them as slides 1 and 2. */
  lemma ConvertTwo(raw: string, a: string, b: string)
    requires raw != [] && !IsWhitespace(raw[0])
    requires Slides(raw) == [a, b] && Trimmed(a) && Trimmed(b)
    ensures Convert(raw) == Success(FirstHeading + a + Separator + "## スライド 2\n\n" + b)
  {
    TrimmedFixed(a);
    TrimmedFixed(b);
    ConvertOf(raw, [a, b]);
    RenderTwo(a, b);
  }


  /** A lone delimiter leaves only blank segments: `NoValidSlides`, not
      `EmptyInput`. */
  lemma ConvertLoneDelimiter()
    ensures Convert("\n---\n") == Failure(NoValidSlides)
  {
    assert Join(["", ""], Delimiter) == Delimiter;
    SplitUnique(["", ""], Delimiter, Delimiter);
    assert !AllWhitespace("\n---\n") by {
      assert !IsWhitespace("\n---\n"[1]);
    }
  }

  /** `\n---\n---\n` holds one delimiter, not two: the occurrences
      overlap and the scan resumes after the first. */
  lemma SharedLineFeedPieces()
    ensures Pieces("\n---\n---\n") == ["", "---\n"]
  {
    assert Join(["", "---\n"], Delimiter) == "\n---\n---\n";
    SplitUnique(["", "---\n"], "\n---\n---\n", Delimiter);
  }

  /** Two delimiters sharing their middle line feed split only once, so the
      second `---` survives as the text of a slide. */
  lemma ConvertSharedLineFeed()
    ensures Convert("\n---\n---\n") == Success(FirstHeading + "---")
  {
    var raw := "\n---\n---\n";
    SharedLineFeedPieces();
    assert Trim("---\n") == "---" by {
      TrimUnique([], "---", "\n");
      assert [] + "---" + "\n" == "---\n";
    }
    assert Slides(raw) == ["---\n"] by {
      assert ["", "---\n"][1..] == ["---\n"] && ["---\n"][1..] == [];
    }
    assert !IsBlank(raw) by {
      assert !IsWhitespace(raw[1]);
    }
    ConvertOf(raw, ["---\n"]);
    RenderOne("---\n");
  }
}
