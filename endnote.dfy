/** `parse_endnote`: reads the lines of an EndNote export (`%X value`) into
    a `Citation`. */
module EndNote {
  import opened Wrappers
  import opened Text
  import opened Records

  /** How `parse_endnote` sees one line: not starting with `%`, a `%` line
      that `split(' ', 1)` cuts into tag and value, or a `%` line without a
      space, whose unpacking raises `ValueError`. */
  datatype LineKind = Untagged | Tagged(tag: string, value: string) | Unsplittable

  predicate IsUnsplittable(line: string) {
    line != [] && line[0] == '%' && ' ' !in line[1..]
  }

  function Classify(line: string): (k: LineKind)
    ensures k.Untagged? <==> line == [] || line[0] != '%'
    ensures k.Unsplittable? <==> IsUnsplittable(line)
    ensures k.Tagged? ==> line == "%" + k.tag + " " + k.value && ' ' !in k.tag
  {
    if line == [] || line[0] != '%' then Untagged
    else
      match SplitOnce(line[1..], ' ')
      case None => Unsplittable
      case Some(cut) => Tagged(cut.0, cut.1)
  }

  /** The tags `parse_endnote` recognises; every other tag is ignored. */
  const Tags: set<string> := {"0", "T", "A", "J", "V", "N", "P", "D", "I"}

  /** The citation before any line is read: only `authors` is set. */
  const Blank := Citation(None, None, [], None, None, None, None, None, None)

  /** The effect of one tagged line. Only title and author values are
      stripped; a repeated scalar tag overwrites the earlier value. */
  function ApplyTag(c: Citation, tag: string, value: string): Citation
  {
    if tag == "0" then c.(kind := Some(value))
    else if tag == "T" then c.(title := Some(Strip(value)))
    else if tag == "A" then c.(authors := c.authors + [Strip(value)])
    else if tag == "J" then c.(journal := Some(value))
    else if tag == "V" then c.(volume := Some(value))
    else if tag == "N" then c.(number := Some(value))
    else if tag == "P" then c.(pages := Some(value))
    else if tag == "D" then c.(year := Some(value))
    else if tag == "I" then c.(publisher := Some(value))
    else c
  }

  /** The citation after reading `lines` on top of `c`. */
  function ParseFrom(c: Citation, lines: seq<string>): Result<Citation, Error>
    decreases |lines|
  {
    if lines == [] then Ok(c)
    else
      match Classify(lines[0])
      case Untagged => ParseFrom(c, lines[1..])
      case Unsplittable => Err(ValueError)
      case Tagged(tag, value) => ParseFrom(ApplyTag(c, tag, value), lines[1..])
  }

  function Parse(lines: seq<string>): Result<Citation, Error> {
    ParseFrom(Blank, lines)
  }

  /** `parse_endnote(text)` with `text.splitlines()` given as `lines`. */
  method ParseEndNote(lines: seq<string>) returns (r: Result<Citation, Error>)
    ensures r == Parse(lines)
  {
    var citation := Blank;
    for i := 0 to |lines|
      invariant ParseFrom(citation, lines[i..]) == Parse(lines)
    {
      var line := lines[i];
      assert lines[i..][1..] == lines[i + 1..];
      if |line| > 0 && line[0] == '%' {
        var cut := SplitOnce(line[1..], ' ');
        if cut.None? {
          return Err(ValueError);
        }
        var key, value := cut.value.0, cut.value.1;
        if key == "0" {
          citation := citation.(kind := Some(value));
        } else if key == "T" {
          citation := citation.(title := Some(Strip(value)));
        } else if key == "A" {
          citation := citation.(authors := citation.authors + [Strip(value)]);
        } else if key == "J" {
          citation := citation.(journal := Some(value));
        } else if key == "V" {
          citation := citation.(volume := Some(value));
        } else if key == "N" {
          citation := citation.(number := Some(value));
        } else if key == "P" {
          citation := citation.(pages := Some(value));
        } else if key == "D" {
          citation := citation.(year := Some(value));
        } else if key == "I" {
          citation := citation.(publisher := Some(value));
        }
      }
    }
    return Ok(citation);
  }

  /** The stripped values of the `%A` lines, in order, duplicates kept. */
  function AuthorValues(lines: seq<string>): seq<string>
  {
    if lines == [] then []
    else
      var k := Classify(lines[0]);
      (if k.Tagged? && k.tag == "A" then [Strip(k.value)] else []) + AuthorValues(lines[1..])
  }

  /** The value of the last line tagged `tag`, if any. */
  function LastValue(lines: seq<string>, tag: string): Option<string>
  {
    if lines == [] then None
    else
      var later := LastValue(lines[1..], tag);
      var k := Classify(lines[0]);
      if later.Some? then later
      else if k.Tagged? && k.tag == tag then Some(k.value)
      else None
  }

  /** The last value of `tag`, or `previous` when no line carries it. */
  function Latest(lines: seq<string>, tag: string, previous: Option<string>): Option<string> {
    var v := LastValue(lines, tag);
    if v.Some? then v else previous
  }

  /** `Latest`, with the value stripped, for the title. */
  function LatestStripped(lines: seq<string>, tag: string, previous: Option<string>): Option<string> {
    var v := LastValue(lines, tag);
    if v.Some? then Some(Strip(v.value)) else previous
  }

  /** Parsing fails exactly when some line starts with `%` but has no space
      after it, and the failure is the unpacking `ValueError`. */
  lemma {:induction false} ParseFailsIffUnsplittable(c: Citation, lines: seq<string>)
    ensures ParseFrom(c, lines).Err? <==> exists i :: 0 <= i < |lines| && IsUnsplittable(lines[i])
    ensures ParseFrom(c, lines).Err? ==> ParseFrom(c, lines).error == ValueError
    decreases |lines|
  {
    if lines != [] {
      var k := Classify(lines[0]);
      var c' := if k.Tagged? then ApplyTag(c, k.tag, k.value) else c;
      ParseFailsIffUnsplittable(c', lines[1..]);
      if exists i :: 0 <= i < |lines| && IsUnsplittable(lines[i]) {
        var i :| 0 <= i < |lines| && IsUnsplittable(lines[i]);
        if i > 0 {
          assert IsUnsplittable(lines[1..][i - 1]);
        }
      }
      if exists i :: 0 <= i < |lines[1..]| && IsUnsplittable(lines[1..][i]) {
        var i :| 0 <= i < |lines[1..]| && IsUnsplittable(lines[1..][i]);
        assert IsUnsplittable(lines[i + 1]);
      }
    }
  }

  /** Authors come from the `%A` lines, in order, each stripped, duplicates
      kept, after whatever authors `c` already had. */
  lemma {:induction false} ParseAuthors(c: Citation, lines: seq<string>)
    requires ParseFrom(c, lines).Ok?
    ensures ParseFrom(c, lines).value.authors == c.authors + AuthorValues(lines)
    decreases |lines|
  {
    if lines != [] {
      ParseStep(c, lines);
      ParseAuthors(Next(c, lines[0]), lines[1..]);
    }
  }

  /** The authors one line contributes. */
  function OwnAuthors(line: string): seq<string> {
    var k := Classify(line);
    if k.Tagged? && k.tag == "A" then [Strip(k.value)] else []
  }

  /** The citation after one line that parses. */
  function Next(c: Citation, line: string): Citation {
    var k := Classify(line);
    if k.Tagged? then ApplyTag(c, k.tag, k.value) else c
  }

  /** Reading the first line of an export that parses, as far as the
      authors are concerned. */
  lemma ParseStep(c: Citation, lines: seq<string>)
    requires lines != [] && ParseFrom(c, lines).Ok?
    ensures ParseFrom(Next(c, lines[0]), lines[1..]) == ParseFrom(c, lines)
    ensures AuthorValues(lines) == OwnAuthors(lines[0]) + AuthorValues(lines[1..])
    ensures Next(c, lines[0]).authors == c.authors + OwnAuthors(lines[0])
  {
    var k := Classify(lines[0]);
    if k.Tagged? {
      ApplyTagAuthors(c, k.tag, k.value);
    }
  }

  /** Only an `A` tag adds to the authors, its value stripped. */
  lemma ApplyTagAuthors(c: Citation, t: string, v: string)
    ensures ApplyTag(c, t, v).authors == c.authors + if t == "A" then [Strip(v)] else []
  {
  }

  /** The scalar field that `tag` sets, read from a citation. */
  function Field(c: Citation, tag: string): Option<string> {
    if tag == "0" then c.kind
    else if tag == "T" then c.title
    else if tag == "J" then c.journal
    else if tag == "V" then c.volume
    else if tag == "N" then c.number
    else if tag == "P" then c.pages
    else if tag == "D" then c.year
    else if tag == "I" then c.publisher
    else None
  }

  /** A scalar tag other than the title sets its own field verbatim and
      leaves the others alone. */
  lemma ApplyTagField(c: Citation, t: string, v: string, tag: string)
    requires tag in Tags - {"A", "T"}
    ensures Field(ApplyTag(c, t, v), tag) == if t == tag then Some(v) else Field(c, tag)
  {
    if t == tag {
      assert t != "A" && t != "T";
    } else if tag == "0" {
      assert ApplyTag(c, t, v).kind == c.kind;
    } else if tag == "J" {
      assert ApplyTag(c, t, v).journal == c.journal;
    } else if tag == "V" {
      assert ApplyTag(c, t, v).volume == c.volume;
    } else if tag == "N" {
      assert ApplyTag(c, t, v).number == c.number;
    } else if tag == "P" {
      assert ApplyTag(c, t, v).pages == c.pages;
    } else if tag == "D" {
      assert ApplyTag(c, t, v).year == c.year;
    } else {
      assert ApplyTag(c, t, v).publisher == c.publisher;
    }
  }

  /** Every scalar field other than the title holds the verbatim value of
      its tag's last line, or keeps its earlier value when its tag never
      appears. */
  lemma {:induction false} ParseScalar(c: Citation, lines: seq<string>, tag: string)
    requires tag in Tags - {"A", "T"}
    requires ParseFrom(c, lines).Ok?
    ensures Field(ParseFrom(c, lines).value, tag) == Latest(lines, tag, Field(c, tag))
    decreases |lines|
  {
    if lines != [] {
      var k := Classify(lines[0]);
      if k.Tagged? {
        ApplyTagField(c, k.tag, k.value, tag);
        ParseScalar(ApplyTag(c, k.tag, k.value), lines[1..], tag);
      } else {
        ParseScalar(c, lines[1..], tag);
      }
    }
  }

  /** The title holds the stripped value of the last `%T` line, or keeps
      its earlier value when there is none. */
  lemma {:induction false} ParseTitle(c: Citation, lines: seq<string>)
    requires ParseFrom(c, lines).Ok?
    ensures ParseFrom(c, lines).value.title == LatestStripped(lines, "T", c.title)
    decreases |lines|
  {
    if lines != [] {
      ParseUnfold(c, lines);
      ParseTitle(Next(c, lines[0]), lines[1..]);
      TitleStep(c, lines);
    }
  }

  /** Reading one line: `ValueError` on a `%` line without a space,
      otherwise the rest is read on top of that line's effect. */
  lemma ParseUnfold(c: Citation, lines: seq<string>)
    requires lines != []
    ensures ParseFrom(c, lines) ==
      if Classify(lines[0]).Unsplittable? then Err(ValueError) else ParseFrom(Next(c, lines[0]), lines[1..])
  {
  }

  /** The last title of some lines, seen from the first line on. */
  lemma TitleStep(c: Citation, lines: seq<string>)
    requires lines != []
    ensures LatestStripped(lines, "T", c.title) == LatestStripped(lines[1..], "T", Next(c, lines[0]).title)
  {
    var k := Classify(lines[0]);
    if k.Tagged? {
      ApplyTagTitle(c, k.tag, k.value);
    }
  }

  /** Only a `T` tag sets the title, its value stripped. */
  lemma ApplyTagTitle(c: Citation, t: string, v: string)
    ensures ApplyTag(c, t, v).title == if t == "T" then Some(Strip(v)) else c.title
  {
  }

  /** A line that does not start with `%`, or whose tag is not in the tag
      table, can be inserted anywhere without changing the outcome. */
  lemma {:induction false} IgnoredLine(c: Citation, before: seq<string>, line: string, after: seq<string>)
    requires Classify(line).Untagged? || (Classify(line).Tagged? && Classify(line).tag !in Tags)
    ensures ParseFrom(c, before + [line] + after) == ParseFrom(c, before + after)
    decreases |before|
  {
    if before == [] {
      assert before + [line] + after == [line] + after;
      assert before + after == after;
      IgnoredFirst(c, line, after);
    } else {
      ParseUnfold(c, before + [line] + after);
      ParseUnfold(c, before + after);
      assert (before + [line] + after)[1..] == before[1..] + [line] + after;
      assert (before + after)[1..] == before[1..] + after;
      assert (before + [line] + after)[0] == before[0] == (before + after)[0];
      IgnoredLine(Next(c, before[0]), before[1..], line, after);
    }
  }

  /** An ignored line in front changes nothing. */
  lemma IgnoredFirst(c: Citation, line: string, after: seq<string>)
    requires Classify(line).Untagged? || (Classify(line).Tagged? && Classify(line).tag !in Tags)
    ensures ParseFrom(c, [line] + after) == ParseFrom(c, after)
  {
    ParseUnfold(c, [line] + after);
    assert ([line] + after)[1..] == after;
    NextIgnored(c, line);
  }

  /** An ignored line leaves the citation as it was. */
  lemma NextIgnored(c: Citation, line: string)
    requires Classify(line).Untagged? || (Classify(line).Tagged? && Classify(line).tag !in Tags)
    ensures Next(c, line) == c
  {
    var k := Classify(line);
    if k.Tagged? {
      assert k.tag != "0" && k.tag != "T" && k.tag != "A" && k.tag != "J" && k.tag != "V";
      assert k.tag != "N" && k.tag != "P" && k.tag != "D" && k.tag != "I";
    }
  }

  /** The export line `%<tag> <value>`. */
  function TagLine(tag: string, value: string): string {
    "%" + tag + " " + value
  }

  /** Formatting a tag and a value as an export line and classifying the
      line gives them back, for any tag without a space. */
  lemma ClassifyTagLine(tag: string, value: string)
    requires ' ' !in tag
    ensures Classify(TagLine(tag, value)) == Tagged(tag, value)
  {
    assert TagLine(tag, value)[1..] == tag + [' '] + value;
    SplitOnceAt(tag, ' ', value);
  }

  /** Reading three lines that all parse applies each in turn. */
  lemma ParseLines3(c: Citation, l1: string, l2: string, l3: string)
    requires !Classify(l1).Unsplittable? && !Classify(l2).Unsplittable? && !Classify(l3).Unsplittable?
    ensures ParseFrom(c, [l1, l2, l3]) == Ok(Next(Next(Next(c, l1), l2), l3))
  {
    ParseUnfold(c, [l1, l2, l3]);
    assert [l1, l2, l3][1..] == [l2, l3];
    ParseUnfold(Next(c, l1), [l2, l3]);
    assert [l2, l3][1..] == [l3];
    ParseUnfold(Next(Next(c, l1), l2), [l3]);
    assert [l3][1..] == [];
  }

  /** A title, an author and a journal line: the title and the author are
      stripped, the journal is kept verbatim, every other field is absent. */
  lemma ParseTitleAuthorJournal(title: string, author: string, journal: string)
    requires title == [] || (!IsSpace(title[0]) && !IsSpace(title[|title| - 1]))
    requires author == [] || (!IsSpace(author[0]) && !IsSpace(author[|author| - 1]))
    ensures Parse([TagLine("T", title + " "), TagLine("A", " " + author), TagLine("J", journal)])
      == Ok(Blank.(title := Some(title), authors := [author], journal := Some(journal)))
  {
    var c1 := Blank.(title := Some(Strip(title + " ")));
    var c2 := c1.(authors := c1.authors + [Strip(" " + author)]);
    TitleLineNext(Blank, title + " ");
    AuthorLineNext(c1, " " + author);
    JournalLineNext(c2, journal);
    ParseLines3(Blank, TagLine("T", title + " "), TagLine("A", " " + author), TagLine("J", journal));
    StripOneSpace(title);
    StripOneSpace(author);
    assert c2.(journal := Some(journal)) == Blank.(title := Some(title), authors := [author], journal := Some(journal));
  }

  /** Reading a `%T` line sets the stripped title. */
  lemma TitleLineNext(c: Citation, value: string)
    ensures !Classify(TagLine("T", value)).Unsplittable?
    ensures Next(c, TagLine("T", value)) == c.(title := Some(Strip(value)))
  {
    ClassifyTagLine("T", value);
  }

  /** Reading a `%A` line adds the stripped author. */
  lemma AuthorLineNext(c: Citation, value: string)
    ensures !Classify(TagLine("A", value)).Unsplittable?
    ensures Next(c, TagLine("A", value)) == c.(authors := c.authors + [Strip(value)])
  {
    ClassifyTagLine("A", value);
  }

  /** Reading a `%J` line sets the journal verbatim. */
  lemma JournalLineNext(c: Citation, value: string)
    ensures !Classify(TagLine("J", value)).Unsplittable?
    ensures Next(c, TagLine("J", value)) == c.(journal := Some(value))
  {
    ClassifyTagLine("J", value);
  }

  /** A shortened, space-padded variant of the title, first author and
      journal lines of the export shown in the documentation of
      `parse_endnote`. */
  lemma ParseExportHead()
    ensures Parse([TagLine("T", "Theoretical studies on anatase" + " "),
                   TagLine("A", " " + "De Angelis, Filippo"),
                   TagLine("J", "Chemical reviews")])
      == Ok(Blank.(title := Some("Theoretical studies on anatase"), authors := ["De Angelis, Filippo"],
                   journal := Some("Chemical reviews")))
  {
    ParseTitleAuthorJournal("Theoretical studies on anatase", "De Angelis, Filippo", "Chemical reviews");
  }
}
