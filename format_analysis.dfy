/** The client's rendering of the analysis text (`formatAnalysis` in
    src/App.js). The reply is cut into sections at "####"; blank pieces are
    dropped; the first line of a piece is its title; a title that mentions
    "tl;dr" in any letter case makes the piece a TL;DR block, and otherwise
    every further line becomes a bullet, a sub-heading or a paragraph. The
    React elements App.js builds are represented by the values below. */
module FormatAnalysis {
  import opened JsString

  /** One rendered content line: `<li>`, `<SubsectionTitle>` or `<p>`. */
  datatype Line = Bullet(text: string) | SubHeading(text: string) | Paragraph(text: string)

  /** One rendered section: `<TldrSection>` with its paragraph, or
      `<AnalysisSection>` with its title and lines. */
  datatype Section = Tldr(body: string) | Normal(title: string, lines: seq<Line>)

  const SectionMarker: string := "####"
  const TldrMarker: string := "tl;dr"
  const Bold: string := "**"

  /** `title.toLowerCase().includes('tl;dr')`. */
  predicate IsTldrTitle(title: string) {
    Includes(ToLower(title), TldrMarker)
  }

  // ---------------------------------------------------------------------------
  // Content lines
  // ---------------------------------------------------------------------------

  /** `Trim(s)` under the bold-marker removal leaves no bold marker and no
      surrounding whitespace. */
  lemma CleanedExcludesBold(s: string)
    ensures IsTrimmed(Trim(ReplaceAll(s, Bold, "")))
    ensures !Includes(Trim(ReplaceAll(s, Bold, "")), Bold)
  {
    var x := ReplaceAll(s, Bold, "");
    ReplaceAllPairExcludes(s, '*');
    assert Bold == ['*', '*'];
    TrimKeepsExcluded(x, Bold);
  }

  /** The element for one content line (`content.map` in App.js); `None`
      is the `null` a blank line maps to. */
  function FormatLine(line: string): (r: Option<Line>)
    ensures r.None? <==> AllWhitespace(line)
    ensures r.Some? ==> IsTrimmed(r.value.text)
    ensures r.Some? && !r.value.Paragraph? ==> !Includes(r.value.text, Bold)
    ensures r.Some? && r.value.Paragraph? ==> r.value.text == Trim(line) && r.value.text != []
  {
    var clean := Trim(line);
    if clean == [] then None
    else if StartsWith(clean, "-") then
      CleanedExcludesBold(ReplaceFirst(clean, "-", ""));
      Some(Bullet(Trim(ReplaceAll(ReplaceFirst(clean, "-", ""), Bold, ""))))
    else if StartsWith(clean, Bold) then
      CleanedExcludesBold(clean);
      Some(SubHeading(Trim(ReplaceAll(clean, Bold, ""))))
    else
      TrimOfTrimmed(clean);
      Some(Paragraph(Trim(clean)))
  }

  /** How a non-blank line is classified. The test is on the trimmed line; a
      leading `-` wins over a leading `**`, only that first `-` is dropped
      (later dashes stay), and a paragraph is the trimmed line unchanged. */
  lemma FormatLineKinds(line: string)
    requires !AllWhitespace(line)
    ensures var clean := Trim(line);
            && clean != []
            && (FormatLine(line).value.Bullet? <==> clean[0] == '-')
            && (FormatLine(line).value.SubHeading? <==> clean[0] != '-' && StartsWith(clean, Bold))
            && (FormatLine(line).value.Paragraph? <==> clean[0] != '-' && !StartsWith(clean, Bold))
            && (clean[0] == '-' ==> FormatLine(line) == Some(Bullet(Trim(ReplaceAll(clean[1..], Bold, "")))))
            && (clean[0] != '-' && StartsWith(clean, Bold) ==>
                  FormatLine(line) == Some(SubHeading(Trim(ReplaceAll(clean, Bold, "")))))
  {
    var clean := Trim(line);
    StartsWithChar(clean, '-');
    if clean[0] == '-' {
      ReplaceFirstAtFront(clean, "-");
    } else if StartsWith(clean, Bold) {
      assert FormatLine(line).value.SubHeading?;
    } else {
      assert FormatLine(line).value.Paragraph?;
    }
  }

  /** `xs.map(f)` with the `null` results left out, as React leaves them out
      of the rendered children. */
  function FilterMap<A, B>(xs: seq<A>, f: A -> Option<B>): seq<B>
    decreases |xs|
  {
    if xs == [] then []
    else (if f(xs[0]).None? then [] else [f(xs[0]).value]) + FilterMap(xs[1..], f)
  }

  /** The elements of `xs` that `f` does not map to `null`, in order. */
  function Kept<A, B>(xs: seq<A>, f: A -> Option<B>): seq<A>
    decreases |xs|
  {
    if xs == [] then [] else (if f(xs[0]).None? then [] else [xs[0]]) + Kept(xs[1..], f)
  }

  lemma {:induction false} FilterMapByElement<A, B>(xs: seq<A>, f: A -> Option<B>)
    ensures |FilterMap(xs, f)| == |Kept(xs, f)|
    ensures forall k :: 0 <= k < |Kept(xs, f)| ==> f(Kept(xs, f)[k]) == Some(FilterMap(xs, f)[k])
    decreases |xs|
  {
    if xs != [] {
      FilterMapByElement(xs[1..], f);
      var rest := Kept(xs[1..], f);
      var out := FilterMap(xs[1..], f);
      if f(xs[0]).Some? {
        assert Kept(xs, f) == [xs[0]] + rest;
        assert FilterMap(xs, f) == [f(xs[0]).value] + out;
        forall k | 0 <= k < |Kept(xs, f)| ensures f(Kept(xs, f)[k]) == Some(FilterMap(xs, f)[k]) {
          if k > 0 {
            assert Kept(xs, f)[k] == rest[k - 1];
            assert FilterMap(xs, f)[k] == out[k - 1];
          }
        }
      }
    }
  }

  lemma {:induction false} FilterMapAppend<A, B>(a: seq<A>, b: seq<A>, f: A -> Option<B>)
    ensures FilterMap(a + b, f) == FilterMap(a, f) + FilterMap(b, f)
    decreases |a|
  {
    if a == [] {
      assert a + b == b;
    } else {
      assert (a + b)[0] == a[0];
      assert (a + b)[1..] == a[1..] + b;
      FilterMapAppend(a[1..], b, f);
      var head := if f(a[0]).None? then [] else [f(a[0]).value];
      assert FilterMap(a + b, f) == head + FilterMap(a[1..] + b, f);
      assert FilterMap(a, f) == head + FilterMap(a[1..], f);
    }
  }

  /** The non-blank strings of `xs`, in order: the `filter` on `trim()`. */
  function NonBlank(xs: seq<string>): seq<string>
    decreases |xs|
  {
    if xs == [] then [] else (if AllWhitespace(xs[0]) then [] else [xs[0]]) + NonBlank(xs[1..])
  }

  lemma {:induction false} NonBlankAppend(a: seq<string>, b: seq<string>)
    ensures NonBlank(a + b) == NonBlank(a) + NonBlank(b)
    decreases |a|
  {
    if a == [] {
      assert a + b == b;
    } else {
      assert (a + b)[0] == a[0];
      assert (a + b)[1..] == a[1..] + b;
      NonBlankAppend(a[1..], b);
    }
  }

  lemma {:induction false} NonBlankMembers(xs: seq<string>)
    ensures forall x :: x in NonBlank(xs) <==> x in xs && !AllWhitespace(x)
    decreases |xs|
  {
    if xs != [] {
      NonBlankMembers(xs[1..]);
      assert xs == [xs[0]] + xs[1..];
    }
  }

  /** The lines FormatLine keeps are exactly the non-blank ones. */
  lemma {:induction false} KeptLinesAreNonBlank(content: seq<string>)
    ensures Kept(content, FormatLine) == NonBlank(content)
    decreases |content|
  {
    if content != [] {
      KeptLinesAreNonBlank(content[1..]);
      assert FormatLine(content[0]).None? <==> AllWhitespace(content[0]);
    }
  }

  /** The elements of one section's content lines. */
  function FormatLines(content: seq<string>): seq<Line> {
    FilterMap(content, FormatLine)
  }

  /** Blank lines produce no element; every other line produces exactly one,
      in the original order. */
  lemma FormatLinesByLine(content: seq<string>)
    ensures |FormatLines(content)| == |NonBlank(content)|
    ensures forall k :: 0 <= k < |NonBlank(content)| ==>
              FormatLine(NonBlank(content)[k]) == Some(FormatLines(content)[k])
  {
    FilterMapByElement(content, FormatLine);
    KeptLinesAreNonBlank(content);
  }

  /** Rendering a block of lines is rendering its parts one after the other. */
  lemma FormatLinesAppend(a: seq<string>, b: seq<string>)
    ensures FormatLines(a + b) == FormatLines(a) + FormatLines(b)
  {
    FilterMapAppend(a, b, FormatLine);
  }

  // ---------------------------------------------------------------------------
  // Sections
  // ---------------------------------------------------------------------------

  /** One non-blank piece between markers. */
  function FormatSection(section: string): (r: Section)
    ensures r.Tldr? <==> IsTldrTitle(Split(section, "\n")[0])
    ensures r.Tldr? ==> '*' !in r.body && IsTrimmed(r.body)
    ensures r.Normal? ==> '*' !in r.title
  {
    var lines := Split(section, "\n");
    var title := lines[0];
    var content := lines[1..];
    if IsTldrTitle(title) then
      var body := Trim(ReplaceAll(Join(content, " "), "*", ""));
      TldrBodyExcludesStar(Join(content, " "));
      Tldr(body)
    else
      ReplaceAllCharIsWithout(Trim(title), '*');
      Normal(ReplaceAll(Trim(title), "*", ""), FormatLines(content))
  }

  lemma TldrBodyExcludesStar(s: string)
    ensures '*' !in Trim(ReplaceAll(s, "*", ""))
  {
    ReplaceAllCharIsWithout(s, '*');
    TrimKeepsAbsentChar(ReplaceAll(s, "*", ""), '*');
  }

  /** What each kind of section holds, in terms of the piece's lines: the
      TL;DR body is the remaining lines joined by single spaces with every `*`
      deleted and then trimmed; a normal title is the trimmed first line with
      every `*` deleted; a normal section's lines are those of FormatLines. */
  lemma FormatSectionParts(section: string)
    ensures var lines := Split(section, "\n");
            && (FormatSection(section).Tldr? ==>
                  FormatSection(section).body == Trim(Without(Join(lines[1..], " "), '*')))
            && (FormatSection(section).Normal? ==>
                  && FormatSection(section).title == Without(Trim(lines[0]), '*')
                  && FormatSection(section).lines == FormatLines(lines[1..]))
  {
    var lines := Split(section, "\n");
    ReplaceAllCharIsWithout(Join(lines[1..], " "), '*');
    ReplaceAllCharIsWithout(Trim(lines[0]), '*');
  }

  /** `formatAnalysis(text)`: split at the marker, drop blank pieces, render
      each remaining piece in order. */
  function RenderAnalysis(text: string): (r: seq<Section>)
    ensures |r| == |NonBlank(Split(text, SectionMarker))|
    ensures forall k :: 0 <= k < |r| ==> r[k] == FormatSection(NonBlank(Split(text, SectionMarker))[k])
  {
    var pieces := NonBlank(Split(text, SectionMarker));
    seq(|pieces|, k requires 0 <= k < |pieces| => FormatSection(pieces[k]))
  }

  /** Every rendered section comes from a non-blank piece of the text, and
      the pieces put back together with the marker are the whole text. */
  lemma RenderAnalysisPieces(text: string)
    ensures Join(Split(text, SectionMarker), SectionMarker) == text
    ensures forall k :: 0 <= k < |RenderAnalysis(text)| ==>
              && NonBlank(Split(text, SectionMarker))[k] in Split(text, SectionMarker)
              && !AllWhitespace(NonBlank(Split(text, SectionMarker))[k])
              && !Includes(NonBlank(Split(text, SectionMarker))[k], SectionMarker)
  {
    SplitJoin(text, SectionMarker);
    SplitPiecesExclude(text, SectionMarker);
    var pieces := Split(text, SectionMarker);
    NonBlankMembers(pieces);
    forall k | 0 <= k < |RenderAnalysis(text)|
      ensures !Includes(NonBlank(pieces)[k], SectionMarker)
    {
      var x := NonBlank(pieces)[k];
      assert x in NonBlank(pieces);
      var m :| 0 <= m < |pieces| && pieces[m] == x;
    }
  }

  /** A reply without the marker is one section (or nothing, if blank): the
      "###" headings of the server's response template do not split it. */
  lemma UnmarkedReplyIsOneSection(text: string)
    requires !Includes(text, SectionMarker)
    ensures RenderAnalysis(text) == if AllWhitespace(text) then [] else [FormatSection(text)]
  {
    var none := IndexOfFrom(text, SectionMarker, 0);
    assert none.None?;
    assert Split(text, SectionMarker) == [text[0..]];
    assert text[0..] == text;
    assert NonBlank([text]) == (if AllWhitespace(text) then [] else [text]) + NonBlank([text][1..]);
  }
}
