/**
 * The Markdown document built by handleDownloadMarkdown in GuildelinesGenerator.tsx:
 * a fixed header, every '\n'-separated segment of the draft as a "- " list item,
 * the items joined by '\n', and a fixed footer.
 */
module MarkdownExport {
  import opened Wrappers

  const Title: string := "# Community Guidelines"
  const Subtitle: string := "## Our Rules"
  const Rule: string := "---"
  const Attribution: string := "*These rules were " + "generated with " + "Guildelines AI.*"
  /** "# Community Guidelines\n\n## Our Rules\n" */
  const Header: string := Title + "\n" + "\n" + Subtitle + "\n"
  /** "\n\n---\n*These rules were generated with Guildelines AI.*\n" */
  const Footer: string := "\n" + "\n" + Rule + "\n" + Attribution + "\n"
  const ItemPrefix: string := "- "

  /** A string is a single line when it holds no '\n'. */
  predicate IsLine(s: string) {
    '\n' !in s
  }

  /** Every entry is a single line. */
  predicate AllLines(parts: seq<string>) {
    forall i :: 0 <= i < |parts| ==> IsLine(parts[i])
  }

  /**
   * JavaScript's `s.split('\n')`: always at least one segment, and one more segment than
   * there are '\n' characters, so "" gives [""] and "a\n" gives ["a", ""].
   */
  function SplitLines(s: string): (r: seq<string>)
    ensures |r| >= 1 && AllLines(r)
  {
    if s == [] then [""]
    else
      var rest := SplitLines(s[1..]);
      if s[0] == '\n' then [""] + rest
      else [[s[0]] + rest[0]] + rest[1..]
  }

  /** JavaScript's `parts.join('\n')`. */
  function JoinLines(parts: seq<string>): string {
    if parts == [] then ""
    else if |parts| == 1 then parts[0]
    else parts[0] + "\n" + JoinLines(parts[1..])
  }

  /** `parts.map(rule => `- ${rule}`)`. */
  function Bullets(parts: seq<string>): seq<string> {
    seq(|parts|, i requires 0 <= i < |parts| => ItemPrefix + parts[i])
  }

  /** The downloaded document for a draft. */
  function ToMarkdown(draft: string): string {
    Header + JoinLines(Bullets(SplitLines(draft))) + Footer
  }

  /** Reads a document back into the draft it was made from: the inverse of ToMarkdown. */
  function ParseMarkdown(doc: string): Option<string> {
    if |doc| < |Header| + |Footer| || doc[..|Header|] != Header || doc[|doc| - |Footer|..] != Footer then None
    else
      var items := SplitLines(doc[|Header|..|doc| - |Footer|]);
      if forall i :: 0 <= i < |items| ==> |ItemPrefix| <= |items[i]| && items[i][..|ItemPrefix|] == ItemPrefix
      then Some(JoinLines(seq(|items|, i requires 0 <= i < |items| => items[i][|ItemPrefix|..])))
      else None
  }

  /** There is one more segment than there are '\n' characters. */
  lemma {:induction false} SplitCount(s: string)
    ensures |SplitLines(s)| == multiset(s)['\n'] + 1
  {
    if s != [] {
      SplitCount(s[1..]);
      assert s == [s[0]] + s[1..];
    }
  }

  /** A string without '\n' is one segment. */
  lemma {:induction false} SplitSingleLine(s: string)
    requires IsLine(s)
    ensures SplitLines(s) == [s]
  {
    if s != [] {
      assert s == [s[0]] + s[1..];
      assert IsLine(s[1..]);
      SplitSingleLine(s[1..]);
    }
  }

  /** Associativity of concatenation on lists of lines, kept apart so that the list equality
      does not drag the strings' own extensionality into the caller's proof. */
  lemma LinesAssoc(x: seq<string>, y: seq<string>, z: seq<string>)
    ensures x + (y + z) == (x + y) + z
  {
  }

  /** Splitting at a '\n' splits the segment list there. */
  lemma {:induction false} SplitAtNewline(a: string, b: string)
    ensures SplitLines(a + "\n" + b) == SplitLines(a) + SplitLines(b)
  {
    var s := a + "\n" + b;
    if a == [] {
      assert s == ['\n'] + b;
      assert s[1..] == b;
    } else {
      assert s[0] == a[0];
      assert s[1..] == a[1..] + "\n" + b;
      SplitAtNewline(a[1..], b);
      var left, right := SplitLines(a[1..]), SplitLines(b);
      var rest := SplitLines(s[1..]);
      assert rest == left + right;
      if a[0] == '\n' {
        LinesAssoc([""], left, right);
      } else {
        assert rest[0] == left[0];
        assert rest[1..] == left[1..] + right;
        var x := [a[0]] + left[0];
        assert SplitLines(s) == [x] + (left[1..] + right);
        assert SplitLines(a) == [x] + left[1..];
        LinesAssoc([x], left[1..], right);
      }
    }
  }

  /** Joining the segments of a split gives back the original string. */
  lemma {:induction false} JoinSplit(s: string)
    ensures JoinLines(SplitLines(s)) == s
  {
    if s != [] {
      var rest := SplitLines(s[1..]);
      JoinSplit(s[1..]);
      if s[0] == '\n' {
        assert ([""] + rest)[1..] == rest;
        assert s == "\n" + s[1..];
      } else {
        var r := [[s[0]] + rest[0]] + rest[1..];
        if |rest| > 1 {
          assert r[1..] == rest[1..];
          var x := "\n" + JoinLines(rest[1..]);
          assert ([s[0]] + rest[0]) + x == [s[0]] + (rest[0] + x);
        }
        assert s == [s[0]] + s[1..];
      }
    }
  }

  /** Splitting a join of single lines gives back the lines. */
  lemma {:induction false} SplitJoin(parts: seq<string>)
    requires |parts| >= 1 && AllLines(parts)
    ensures SplitLines(JoinLines(parts)) == parts
  {
    if |parts| == 1 {
      SplitSingleLine(parts[0]);
    } else {
      SplitJoin(parts[1..]);
      SplitSingleLine(parts[0]);
      SplitAtNewline(parts[0], JoinLines(parts[1..]));
      assert [parts[0]] + parts[1..] == parts;
    }
  }

  /** The list items are single lines, so they can be told apart in the document. */
  lemma BulletsAreLines(parts: seq<string>)
    requires AllLines(parts)
    ensures AllLines(Bullets(parts))
  {
  }

  /** Joining two non-empty lists puts one '\n' between their joins. */
  lemma {:induction false} JoinAppend(xs: seq<string>, ys: seq<string>)
    requires |xs| >= 1 && |ys| >= 1
    ensures JoinLines(xs + ys) == JoinLines(xs) + "\n" + JoinLines(ys)
  {
    if |xs| == 1 {
      assert (xs + ys)[1..] == ys;
    } else {
      assert (xs + ys)[1..] == xs[1..] + ys;
      JoinAppend(xs[1..], ys);
      assert ((xs[0] + "\n") + JoinLines(xs[1..])) + ("\n" + JoinLines(ys)) == (xs[0] + "\n") + (JoinLines(xs[1..]) + ("\n" + JoinLines(ys)));
      assert ((xs[0] + "\n" + JoinLines(xs[1..])) + "\n") + JoinLines(ys) == (xs[0] + "\n" + JoinLines(xs[1..])) + ("\n" + JoinLines(ys));
    }
  }

  /** The fixed lines of the template hold no '\n' of their own. */
  lemma TemplateLines()
    ensures IsLine(Title) && IsLine(Subtitle) && IsLine(Rule) && IsLine(Attribution) && IsLine("")
  {
  }

  /** The header is its three lines, each ended by '\n'. */
  lemma HeaderLines()
    ensures Header == JoinLines([Title, "", Subtitle]) + "\n"
  {
    var lines := [Title, "", Subtitle];
    assert lines[1..] == ["", Subtitle];
    assert ["", Subtitle][1..] == [Subtitle];
    assert JoinLines(["", Subtitle]) == "" + "\n" + Subtitle;
    assert JoinLines(lines) == Title + "\n" + ("\n" + Subtitle);
    assert ((Title + "\n") + "\n") + Subtitle == (Title + "\n") + ("\n" + Subtitle);
  }

  /** Associativity of string concatenation, as separate facts that keep FooterLines cheap. */
  lemma ConcatAssoc(a: string, b: string, c: string)
    ensures (a + b) + c == a + (b + c)
  {
  }

  /** The footer is '\n' followed by its four lines, the last of them empty. */
  lemma FooterLines()
    ensures Footer == "\n" + JoinLines(["", Rule, Attribution, ""])
  {
    var lines := ["", Rule, Attribution, ""];
    assert lines[1..] == [Rule, Attribution, ""];
    assert [Rule, Attribution, ""][1..] == [Attribution, ""];
    assert [Attribution, ""][1..] == [""];
    assert JoinLines([Attribution, ""]) == Attribution + "\n";
    assert JoinLines([Rule, Attribution, ""]) == Rule + "\n" + (Attribution + "\n");
    assert JoinLines(lines) == "\n" + (Rule + "\n" + (Attribution + "\n"));
    ConcatAssoc(Rule + "\n", Attribution, "\n");
    ConcatAssoc("\n", Rule + "\n" + Attribution, "\n");
    ConcatAssoc("\n", Rule + "\n", Attribution);
    ConcatAssoc("\n", Rule, "\n");
  }

  /** The document is the join of its lines. */
  lemma {:induction false} MarkdownIsJoin(draft: string)
    ensures ToMarkdown(draft)
      == JoinLines([Title, "", Subtitle] + Bullets(SplitLines(draft)) + ["", Rule, Attribution, ""])
  {
    var head, items, foot := [Title, "", Subtitle], Bullets(SplitLines(draft)), ["", Rule, Attribution, ""];
    var body := JoinLines(items);
    HeaderLines();
    FooterLines();
    JoinAppend(head, items);
    JoinAppend(head + items, foot);
    calc {
      ToMarkdown(draft);
      Header + body + Footer;
      (JoinLines(head) + "\n") + body + ("\n" + JoinLines(foot));
      { assert ((JoinLines(head) + "\n" + body) + "\n") + JoinLines(foot) == (JoinLines(head) + "\n" + body) + ("\n" + JoinLines(foot)); }
      JoinLines(head + items) + "\n" + JoinLines(foot);
      JoinLines(head + items + foot);
    }
  }

  /**
   * The lines of the document: the two headings with a blank line between them, one "- "
   * item per segment of the draft (one more than the draft's '\n' count, empty segments
   * included), a blank line, the rule, the attribution and the empty segment after the
   * final '\n'.
   */
  lemma {:induction false} MarkdownLines(draft: string)
    ensures var items := Bullets(SplitLines(draft));
      && |items| == multiset(draft)['\n'] + 1
      && (forall i :: 0 <= i < |items| ==> items[i] == ItemPrefix + SplitLines(draft)[i])
      && SplitLines(ToMarkdown(draft)) == [Title, "", Subtitle] + items + ["", Rule, Attribution, ""]
  {
    var head, items, foot := [Title, "", Subtitle], Bullets(SplitLines(draft)), ["", Rule, Attribution, ""];
    MarkdownIsJoin(draft);
    BulletsAreLines(SplitLines(draft));
    TemplateLines();
    assert AllLines(head + items + foot);
    SplitJoin(head + items + foot);
    SplitCount(draft);
  }

  /** The draft can be read back from the document: no rule text is lost or altered. */
  lemma {:induction false} MarkdownRoundTrip(draft: string)
    ensures ParseMarkdown(ToMarkdown(draft)) == Some(draft)
  {
    var segments := SplitLines(draft);
    var items := Bullets(segments);
    var body := JoinLines(items);
    var doc := ToMarkdown(draft);
    assert doc[..|Header|] == Header && doc[|doc| - |Footer|..] == Footer;
    assert doc[|Header|..|doc| - |Footer|] == body;
    BulletsAreLines(segments);
    SplitJoin(items);
    assert forall i :: 0 <= i < |items| ==> |ItemPrefix| <= |items[i]| && items[i][..|ItemPrefix|] == ItemPrefix;
    var stripped := seq(|items|, i requires 0 <= i < |items| => items[i][|ItemPrefix|..]);
    assert stripped == segments;
    JoinSplit(draft);
  }

  /** Two rules a and b give exactly the two items "- a" and "- b" under the rules heading. */
  lemma {:induction false} TwoRules(a: string, b: string)
    requires IsLine(a) && IsLine(b)
    ensures SplitLines(ToMarkdown(a + "\n" + b))
      == [Title, "", Subtitle] + [ItemPrefix + a, ItemPrefix + b] + ["", Rule, Attribution, ""]
  {
    SplitAtNewline(a, b);
    SplitSingleLine(a);
    SplitSingleLine(b);
    var items := Bullets([a, b]);
    assert items == [ItemPrefix + a, ItemPrefix + b];
    MarkdownLines(a + "\n" + b);
  }

  /** A trailing '\n' is not filtered out: it becomes an empty "- " item. */
  lemma {:induction false} TrailingNewline(a: string)
    requires IsLine(a)
    ensures Bullets(SplitLines(a + "\n")) == [ItemPrefix + a, ItemPrefix]
  {
    assert a + "\n" == a + "\n" + "";
    SplitAtNewline(a, "");
    SplitSingleLine(a);
    SplitSingleLine("");
    assert ItemPrefix + "" == ItemPrefix;
  }
}
