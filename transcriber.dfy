/**
  The transcription walk of `scrape_euler_problem`: once the problem page has
  been parsed, the title is the text of the first `h2`, and every `<p>` except
  the last is walked child by child, each child adding a fixed markup wrapper
  around its flattened text to an accumulating string. Each paragraph is closed
  by one space and all tab characters are removed at the end.

  The parsed page is the input: fetching and parsing are not part of the model,
  and every text field below already holds the element's flattened text.
*/
module Transcriber {
  import opened Wrappers

  /** A direct child of a paragraph, classified by its tag name. */
  datatype Node =
    | Text(s: string)                              // a text node (no tag name)
    | Link(text: string, href: Option<string>)     // `a`, with its `href` attribute if present
    | Sub(t: string)                               // `sub`
    | Sup(t: string)                               // `sup`
    | Strong(t: string)                            // `strong`
    | Em(t: string)                                // `em`
    | Code(t: string)                              // `code`
    | Other(name: string, t: string)               // any other tag

  /** The parsed page: the texts of all `h2` elements and the children of all `p` elements, in document order. */
  datatype Doc = Doc(headings: seq<string>, paragraphs: seq<seq<Node>>)

  /** Why transcription stops: no `h2` to index, or an `a` without an `href` to look up. */
  datatype ScrapeError = NoHeading | MissingHref

  /** Every child except an `a` without an `href` can be transcribed. */
  predicate Transcribable(n: Node) {
    !(n.Link? && n.href.None?)
  }

  predicate ParagraphTranscribable(cs: seq<Node>) {
    forall k :: 0 <= k < |cs| ==> Transcribable(cs[k])
  }

  predicate BodyTranscribable(ps: seq<seq<Node>>) {
    forall i :: 0 <= i < |ps| ==> ParagraphTranscribable(ps[i])
  }

  /** No text field of the child holds a tab. */
  predicate TabFree(n: Node) {
    match n
    case Link(text, href) => '\t' !in text && (href.Some? ==> '\t' !in href.value)
    case Text(s) => '\t' !in s
    case Sub(t) => '\t' !in t
    case Sup(t) => '\t' !in t
    case Strong(t) => '\t' !in t
    case Em(t) => '\t' !in t
    case Code(t) => '\t' !in t
    case Other(_, _) => true
  }

  /** Python's `s.replace("\t", "")`. */
  function StripTabs(s: string): (r: string)
    ensures '\t' !in r
    ensures |r| <= |s|
  {
    if s == [] then []
    else (if s[0] == '\t' then [] else [s[0]]) + StripTabs(s[1..])
  }

  /** Python's `ps[:-1]`: every element but the last, and nothing when there is nothing. */
  function DropLast<T>(ps: seq<T>): (r: seq<T>)
    ensures |r| == if ps == [] then 0 else |ps| - 1
    ensures forall i :: 0 <= i < |r| ==> r[i] == ps[i]
  {
    if ps == [] then [] else ps[..|ps| - 1]
  }

  /** The flattened text of a child, whichever tag it has. */
  function Inner(n: Node): string {
    match n
    case Text(s) => s
    case Link(text, _) => text
    case Sub(t) => t
    case Sup(t) => t
    case Strong(t) => t
    case Em(t) => t
    case Code(t) => t
    case Other(_, t) => t
  }

  /**
    What one child adds to the transcript. A link without an `href` never
    gets this far (the walk stops on it), so its markup here is immaterial.
  */
  function Markup(n: Node): (r: string)
    ensures n.Other? ==> r == ""
    ensures Transcribable(n) && !n.Other? ==> |r| >= |Inner(n)|
    ensures TabFree(n) ==> '\t' !in r
  {
    match n
    case Link(text, href) =>
      if href.Some? then
        assert '\t' !in "[" && '\t' !in "](" && '\t' !in ")";
        "[" + text + "](" + href.value + ")"
      else ""
    case Text(s) => s
    case Sub(t) => assert '\t' !in "<sub>" && '\t' !in "</sub>"; "<sub>" + t + "</sub>"
    case Sup(t) => assert '\t' !in "<sup>" && '\t' !in "</sup>"; "<sup>" + t + "</sup>"
    case Strong(t) => assert '\t' !in "**"; "**" + t + "**"
    case Em(t) => assert '\t' !in "*"; "*" + t + "*"
    case Code(t) => assert '\t' !in "`"; "`" + t + "`"
    case Other(_, _) => ""
  }

  /** The markup of a paragraph's children, in order (without the closing space). */
  function ParagraphMarkup(cs: seq<Node>): (r: string)
    ensures (forall k :: 0 <= k < |cs| ==> TabFree(cs[k])) ==> '\t' !in r
  {
    if cs == [] then ""
    else ParagraphMarkup(cs[..|cs| - 1]) + Markup(cs[|cs| - 1])
  }

  /** The markup of the paragraphs, each followed by one space. */
  function BodyMarkup(ps: seq<seq<Node>>): (r: string)
    ensures |r| >= |ps|
    ensures ps != [] ==> r[|r| - 1] == ' '
  {
    if ps == [] then ""
    else BodyMarkup(ps[..|ps| - 1]) + ParagraphMarkup(ps[|ps| - 1]) + " "
  }

  /** The whole transcript of a page, or the reason the walk stops. */
  function Transcribe(doc: Doc): (r: Result<string, ScrapeError>)
    ensures r == Failure(NoHeading) <==> doc.headings == []
    ensures r == Failure(MissingHref) <==> doc.headings != [] && !BodyTranscribable(DropLast(doc.paragraphs))
    ensures r.Success? ==> '\t' !in r.value
  {
    if doc.headings == [] then Failure(NoHeading)
    else if !BodyTranscribable(DropLast(doc.paragraphs)) then Failure(MissingHref)
    else Success(StripTabs(doc.headings[0] + ": " + BodyMarkup(DropLast(doc.paragraphs))))
  }

  // Properties of tab stripping

  /** String concatenation is associative (stated once, so that proofs can cite it instead of rediscovering it). */
  lemma AppendAssoc(a: string, b: string, c: string)
    ensures a + b + c == a + (b + c)
  {
  }

  /** Removing tabs from a concatenation removes them from each part. */
  lemma {:induction false} StripTabsConcat(a: string, b: string)
    ensures StripTabs(a + b) == StripTabs(a) + StripTabs(b)
  {
    if a == [] {
      assert a + b == b;
    } else {
      assert (a + b)[0] == a[0];
      assert (a + b)[1..] == a[1..] + b;
      StripTabsConcat(a[1..], b);
      AppendAssoc(if a[0] == '\t' then [] else [a[0]], StripTabs(a[1..]), StripTabs(b));
    }
  }

  /** Stripping changes a string exactly when it holds a tab. */
  lemma {:induction false} StripTabsUnchanged(s: string)
    ensures StripTabs(s) == s <==> '\t' !in s
  {
    if s != [] {
      StripTabsUnchanged(s[1..]);
      if s[0] == '\t' {
        assert |StripTabs(s)| < |s| by { assert StripTabs(s) == StripTabs(s[1..]); }
      } else {
        assert s == [s[0]] + s[1..];
      }
    }
  }

  /** Stripping tabs a second time changes nothing. */
  lemma StripTabsIdempotent(s: string)
    ensures StripTabs(StripTabs(s)) == StripTabs(s)
  {
    StripTabsUnchanged(StripTabs(s));
  }

  /** Stripping deletes every tab and keeps every other character, as often as it occurs. */
  lemma {:induction false} StripTabsCount(s: string)
    ensures multiset(StripTabs(s)) == multiset(s)['\t' := 0]
  {
    if s != [] {
      StripTabsCount(s[1..]);
      assert s == [s[0]] + s[1..];
    }
  }

  // Properties of the paragraph walk

  /** A recognised child's markup holds its whole flattened text, between the wrapper's opening and closing. */
  lemma MarkupHoldsInner(n: Node)
    requires Transcribable(n) && !n.Other?
    ensures exists open: string, close: string :: Markup(n) == open + Inner(n) + close
  {
    match n
    case Link(text, href) => assert Markup(n) == "[" + text + ("](" + href.value + ")");
    case Text(t) => assert Markup(n) == "" + t + "";
    case Sub(t) => assert Markup(n) == "<sub>" + t + "</sub>";
    case Sup(t) => assert Markup(n) == "<sup>" + t + "</sup>";
    case Strong(t) => assert Markup(n) == "**" + t + "**";
    case Em(t) => assert Markup(n) == "*" + t + "*";
    case Code(t) => assert Markup(n) == "`" + t + "`";
  }

  /** A paragraph's markup is the markup of its first part followed by that of the rest. */
  lemma {:induction false} ParagraphConcat(a: seq<Node>, b: seq<Node>)
    ensures ParagraphMarkup(a + b) == ParagraphMarkup(a) + ParagraphMarkup(b)
  {
    if b == [] {
      assert a + b == a;
    } else {
      var b', last := b[..|b| - 1], b[|b| - 1];
      assert (a + b)[..|a + b| - 1] == a + b';
      assert (a + b)[|a + b| - 1] == last;
      ParagraphConcat(a, b');
      AppendAssoc(ParagraphMarkup(a), ParagraphMarkup(b'), Markup(last));
    }
  }

  /** Walking one more child appends its markup. */
  lemma ParagraphStep(cs: seq<Node>, j: nat)
    requires j < |cs|
    ensures ParagraphMarkup(cs[..j + 1]) == ParagraphMarkup(cs[..j]) + Markup(cs[j])
  {
    assert cs[..j + 1][..j] == cs[..j];
  }

  /** Appending a child to a paragraph appends its markup. */
  lemma AppendChildMarkup(cs: seq<Node>, x: Node)
    ensures ParagraphMarkup(cs + [x]) == ParagraphMarkup(cs) + Markup(x)
  {
    assert (cs + [x])[..|cs|] == cs;
  }

  /** A text node is copied verbatim. */
  lemma AppendText(cs: seq<Node>, s: string)
    ensures ParagraphMarkup(cs + [Text(s)]) == ParagraphMarkup(cs) + s
  {
    AppendChildMarkup(cs, Text(s));
  }

  /** A link with an `href` becomes `[text](href)`. */
  lemma AppendLink(cs: seq<Node>, text: string, href: string)
    ensures ParagraphMarkup(cs + [Link(text, Some(href))]) == ParagraphMarkup(cs) + ("[" + text + "](" + href + ")")
  {
    AppendChildMarkup(cs, Link(text, Some(href)));
  }

  /** A subscript keeps its `<sub>` tags. */
  lemma AppendSub(cs: seq<Node>, t: string)
    ensures ParagraphMarkup(cs + [Sub(t)]) == ParagraphMarkup(cs) + ("<sub>" + t + "</sub>")
  {
    AppendChildMarkup(cs, Sub(t));
  }

  /** A superscript keeps its `<sup>` tags. */
  lemma AppendSup(cs: seq<Node>, t: string)
    ensures ParagraphMarkup(cs + [Sup(t)]) == ParagraphMarkup(cs) + ("<sup>" + t + "</sup>")
  {
    AppendChildMarkup(cs, Sup(t));
  }

  /** Bold text is wrapped in `**`. */
  lemma AppendStrong(cs: seq<Node>, t: string)
    ensures ParagraphMarkup(cs + [Strong(t)]) == ParagraphMarkup(cs) + ("**" + t + "**")
  {
    AppendChildMarkup(cs, Strong(t));
  }

  /** Italic text is wrapped in `*`. */
  lemma AppendEm(cs: seq<Node>, t: string)
    ensures ParagraphMarkup(cs + [Em(t)]) == ParagraphMarkup(cs) + ("*" + t + "*")
  {
    AppendChildMarkup(cs, Em(t));
  }

  /** Code is wrapped in backquotes. */
  lemma AppendCode(cs: seq<Node>, t: string)
    ensures ParagraphMarkup(cs + [Code(t)]) == ParagraphMarkup(cs) + ("`" + t + "`")
  {
    AppendChildMarkup(cs, Code(t));
  }

  /** The walk can go on exactly while every child so far can be transcribed. */
  lemma TranscribableStep(cs: seq<Node>, j: nat)
    requires j < |cs|
    ensures ParagraphTranscribable(cs[..j + 1]) <==> ParagraphTranscribable(cs[..j]) && Transcribable(cs[j])
  {
    assert forall k :: 0 <= k < j ==> cs[..j + 1][k] == cs[..j][k];
  }

  /** Walking one more paragraph appends its markup and one space. */
  lemma BodyStep(ps: seq<seq<Node>>, i: nat)
    requires i < |ps|
    ensures BodyMarkup(ps[..i + 1]) == BodyMarkup(ps[..i]) + ParagraphMarkup(ps[i]) + " "
  {
    assert ps[..i + 1][..i] == ps[..i];
  }

  /** The walk goes on past a paragraph exactly when all its children can be transcribed. */
  lemma BodyTranscribableStep(ps: seq<seq<Node>>, i: nat)
    requires i < |ps|
    ensures BodyTranscribable(ps[..i + 1]) <==> BodyTranscribable(ps[..i]) && ParagraphTranscribable(ps[i])
  {
    assert forall k :: 0 <= k < i ==> ps[..i + 1][k] == ps[..i][k];
  }

  /** A child whose tag is not recognised adds nothing: inserting one anywhere leaves the paragraph's markup as it was. */
  lemma UnrecognisedChildIgnored(before: seq<Node>, other: Node, after: seq<Node>)
    requires other.Other?
    ensures ParagraphMarkup(before + [other] + after) == ParagraphMarkup(before + after)
  {
    assert ParagraphMarkup([other]) == "" by {
      assert [other][..0] == [];
    }
    ParagraphConcat(before, [other]);
    ParagraphConcat(before + [other], after);
    ParagraphConcat(before, after);
  }

  /** ... and it does not make the paragraph fail either. */
  lemma UnrecognisedChildHarmless(before: seq<Node>, other: Node, after: seq<Node>)
    requires other.Other?
    ensures ParagraphTranscribable(before + [other] + after) <==> ParagraphTranscribable(before + after)
  {
    var with, without := before + [other] + after, before + after;
    if ParagraphTranscribable(without) {
      forall k | 0 <= k < |with| ensures Transcribable(with[k]) {
        if k < |before| { assert with[k] == without[k]; }
        else if k > |before| { assert with[k] == without[k - 1]; }
      }
    }
    if ParagraphTranscribable(with) {
      forall k | 0 <= k < |without| ensures Transcribable(without[k]) {
        if k < |before| { assert with[k] == without[k]; } else { assert with[k + 1] == without[k]; }
      }
    }
  }

  /** A paragraph made only of unrecognised children has empty markup. */
  lemma {:induction false} UnrecognisedOnlyParagraph(cs: seq<Node>)
    requires forall k :: 0 <= k < |cs| ==> cs[k].Other?
    ensures ParagraphMarkup(cs) == ""
  {
    if cs != [] {
      UnrecognisedOnlyParagraph(cs[..|cs| - 1]);
    }
  }

  /** A paragraph made only of unrecognised children adds exactly one space to the body. */
  lemma UnrecognisedOnlyParagraphAddsSpace(ps: seq<seq<Node>>, cs: seq<Node>)
    requires forall k :: 0 <= k < |cs| ==> cs[k].Other?
    ensures BodyMarkup(ps + [cs]) == BodyMarkup(ps) + " "
  {
    UnrecognisedOnlyParagraph(cs);
    assert (ps + [cs])[..|ps|] == ps;
  }

  // Properties of the whole transcript

  /** The last paragraph never contributes, whatever it holds. */
  lemma LastParagraphIgnored(headings: seq<string>, ps: seq<seq<Node>>, p: seq<Node>, q: seq<Node>)
    ensures Transcribe(Doc(headings, ps + [p])) == Transcribe(Doc(headings, ps + [q]))
  {
    assert DropLast(ps + [p]) == ps == DropLast(ps + [q]);
  }

  /** With at most one paragraph the transcript is the tab-stripped title and ": ". */
  lemma NoBodyParagraphs(doc: Doc)
    requires doc.headings != [] && |doc.paragraphs| <= 1
    ensures Transcribe(doc) == Success(StripTabs(doc.headings[0] + ": "))
  {
    assert DropLast(doc.paragraphs) == [];
    assert doc.headings[0] + ": " + "" == doc.headings[0] + ": ";
  }

  /** The transcript is the tab-stripped first heading, ": ", and the tab-stripped body. */
  lemma TitleLeads(doc: Doc)
    requires Transcribe(doc).Success?
    ensures Transcribe(doc).value == StripTabs(doc.headings[0]) + ": " + StripTabs(BodyMarkup(DropLast(doc.paragraphs)))
  {
    var body := BodyMarkup(DropLast(doc.paragraphs));
    StripTabsConcat(doc.headings[0] + ": ", body);
    StripTabsConcat(doc.headings[0], ": ");
    StripTabsUnchanged(": ");
  }

  /** Headings after the first are never read: only whether there is one, and which, matters. */
  lemma LaterHeadingsIgnored(doc: Doc, hs: seq<string>)
    requires hs == [] <==> doc.headings == []
    requires hs != [] ==> hs[0] == doc.headings[0]
    ensures Transcribe(Doc(hs, doc.paragraphs)) == Transcribe(doc)
  {
  }

  /** A page with one paragraph besides the last: the transcript is that paragraph's markup and one space after the title. */
  lemma SingleBodyParagraph(hs: seq<string>, cs: seq<Node>, last: seq<Node>)
    requires hs != [] && ParagraphTranscribable(cs)
    ensures Transcribe(Doc(hs, [cs, last])) == Success(StripTabs(hs[0] + ": " + (ParagraphMarkup(cs) + " ")))
  {
    assert DropLast([cs, last]) == [cs];
    assert BodyTranscribable([cs]);
    assert BodyMarkup([cs]) == ParagraphMarkup(cs) + " " by {
      assert [cs][..0] == [];
      assert "" + ParagraphMarkup(cs) == ParagraphMarkup(cs);
    }
  }

  /** With no tab in the title or in the children, nothing is stripped. */
  lemma TabFreeSingleBodyParagraph(hs: seq<string>, cs: seq<Node>, last: seq<Node>)
    requires hs != [] && ParagraphTranscribable(cs)
    requires '\t' !in hs[0] && forall k :: 0 <= k < |cs| ==> TabFree(cs[k])
    ensures Transcribe(Doc(hs, [cs, last])) == Success(hs[0] + ": " + (ParagraphMarkup(cs) + " "))
  {
    var pm := ParagraphMarkup(cs);
    assert '\t' !in pm;
    var whole := hs[0] + ": " + (pm + " ");
    assert '\t' !in whole by {
      assert '\t' !in ": " && '\t' !in " ";
    }
    calc {
      Transcribe(Doc(hs, [cs, last]));
    == { SingleBodyParagraph(hs, cs, last); }
      Success(StripTabs(whole));
    == { StripTabsUnchanged(whole); }
      Success(whole);
    }
  }

  /** The markup of one paragraph holding text, a link, text and bold text. */
  lemma LinkAndBoldParagraph(before: string, anchor: string, href: string, between: string, bold: string)
    ensures ParagraphMarkup([Text(before), Link(anchor, Some(href)), Text(between), Strong(bold)])
      == before + ("[" + anchor + "](" + href + ")") + between + ("**" + bold + "**")
  {
    var c1: seq<Node> := [Text(before)];
    var c2 := c1 + [Link(anchor, Some(href))];
    var c3 := c2 + [Text(between)];
    var c4 := c3 + [Strong(bold)];
    assert c4 == [Text(before), Link(anchor, Some(href)), Text(between), Strong(bold)];
    assert [] + [Text(before)] == c1;
    AppendText([], before);
    assert "" + before == before;
    AppendLink(c1, anchor, href);
    AppendText(c2, between);
    AppendStrong(c3, bold);
  }

  /** A title, one paragraph of text with a link and bold text, and a footer: nothing is stripped. */
  lemma LinkAndBoldTranscript(title: string, before: string, anchor: string, href: string,
                              between: string, bold: string, footer: seq<Node>)
    requires '\t' !in title && '\t' !in before && '\t' !in anchor && '\t' !in href && '\t' !in between && '\t' !in bold
    ensures Transcribe(Doc([title], [[Text(before), Link(anchor, Some(href)), Text(between), Strong(bold)], footer]))
      == Success(title + ": " + (before + ("[" + anchor + "](" + href + ")") + between + ("**" + bold + "**") + " "))
  {
    var cs: seq<Node> := [Text(before), Link(anchor, Some(href)), Text(between), Strong(bold)];
    LinkAndBoldParagraph(before, anchor, href, between, bold);
    assert ParagraphTranscribable(cs) by {
      forall k | 0 <= k < |cs| ensures Transcribable(cs[k]) {
        assert k != 1 ==> !cs[k].Link?;
      }
    }
    assert forall k :: 0 <= k < |cs| ==> TabFree(cs[k]);
    TabFreeSingleBodyParagraph([title], cs, footer);
  }

  /** Proof helper for ProblemOneTranscript: regrouping a title and five body pieces. */
  lemma Regroup(a: string, b: string, c: string, d: string, e: string, f: string)
    ensures a + (b + c + d + e + f) == a + b + c + d + e + f
  {
    AppendAssoc(a, b + c + d + e, f);
    AppendAssoc(a, b + c + d, e);
    AppendAssoc(a, b + c, d);
    AppendAssoc(a, b, c);
  }

  /** Proof helper for ProblemOneTranscript: the worked example's literals, up to the link. */
  lemma ProblemOneHead()
    ensures "Problem 1" + ": " + "Find the sum of " + ("[" + "multiples" + "](" + "/x" + ")")
      == "Problem 1: Find the sum of [multiples](/x)"
  {
    assert "[" + "multiples" + "](" + "/x" + ")" == "[multiples](/x)";
    assert "Problem 1" + ": " == "Problem 1: ";
    assert "Problem 1: " + "Find the sum of " == "Problem 1: Find the sum of ";
  }

  /** Proof helper for ProblemOneTranscript: the worked example's literals, from the link on. */
  lemma ProblemOneTail()
    ensures "Problem 1: Find the sum of [multiples](/x)" + " below " + ("**" + "1000" + "**") + " "
      == "Problem 1: Find the sum of [multiples](/x) below **1000** "
  {
    assert "**" + "1000" + "**" == "**1000**";
    assert "Problem 1: Find the sum of [multiples](/x)" + " below " == "Problem 1: Find the sum of [multiples](/x) below ";
    assert "Problem 1: Find the sum of [multiples](/x) below " + "**1000**" == "Problem 1: Find the sum of [multiples](/x) below **1000**";
  }

  /**
    The worked example of a problem page: heading "Problem 1", a paragraph
    holding the text "Find the sum of ", a link "multiples" to "/x", the text
    " below " and bold "1000", then a footer paragraph.
  */
  lemma ProblemOneTranscript()
    ensures Transcribe(Doc(["Problem 1"], [[Text("Find the sum of "), Link("multiples", Some("/x")), Text(" below "), Strong("1000")], []]))
      == Success("Problem 1: Find the sum of [multiples](/x) below **1000** ")
  {
    assert '\t' !in "Problem 1" && '\t' !in "Find the sum of " && '\t' !in "multiples" && '\t' !in "/x" && '\t' !in " below " && '\t' !in "1000";
    LinkAndBoldTranscript("Problem 1", "Find the sum of ", "multiples", "/x", " below ", "1000", []);
    Regroup("Problem 1" + ": ", "Find the sum of ", "[" + "multiples" + "](" + "/x" + ")", " below ", "**" + "1000" + "**", " ");
    ProblemOneHead();
    ProblemOneTail();
  }

  /** The markup of one paragraph holding a subscript, a superscript, italic text and code, in order. */
  lemma OtherKindsParagraph(sub: string, sup: string, em: string, code: string)
    ensures ParagraphMarkup([Sub(sub), Sup(sup), Em(em), Code(code)])
      == ("<sub>" + sub + "</sub>") + ("<sup>" + sup + "</sup>") + ("*" + em + "*") + ("`" + code + "`")
  {
    var c1: seq<Node> := [Sub(sub)];
    var c2 := c1 + [Sup(sup)];
    var c3 := c2 + [Em(em)];
    var c4 := c3 + [Code(code)];
    assert c4 == [Sub(sub), Sup(sup), Em(em), Code(code)];
    assert [] + [Sub(sub)] == c1;
    AppendSub([], sub);
    assert "" + ("<sub>" + sub + "</sub>") == "<sub>" + sub + "</sub>";
    AppendSup(c1, sup);
    AppendEm(c2, em);
    AppendCode(c3, code);
  }

  /**
    The remaining recognised kinds with their markup; a second heading is
    never read. With title "T" and texts "1", "2", "e" and "c" the
    transcript reads "T: <sub>1</sub><sup>2</sup>*e*`c` ".
  */
  lemma OtherKindsTranscript(title: string, second: string, sub: string, sup: string, em: string, code: string,
                             footer: seq<Node>)
    requires '\t' !in title && '\t' !in sub && '\t' !in sup && '\t' !in em && '\t' !in code
    ensures Transcribe(Doc([title, second], [[Sub(sub), Sup(sup), Em(em), Code(code)], footer]))
      == Success(title + ": " + (("<sub>" + sub + "</sub>") + ("<sup>" + sup + "</sup>") + ("*" + em + "*") + ("`" + code + "`") + " "))
  {
    var cs: seq<Node> := [Sub(sub), Sup(sup), Em(em), Code(code)];
    OtherKindsParagraph(sub, sup, em, code);
    assert ParagraphTranscribable(cs) by {
      forall k | 0 <= k < |cs| ensures Transcribable(cs[k]) {
        assert !cs[k].Link?;
      }
    }
    assert forall k :: 0 <= k < |cs| ==> TabFree(cs[k]);
    TabFreeSingleBodyParagraph([title, second], cs, footer);
  }

  // The walk itself, as the Python code runs it

  /** The elif chain on the child's tag: appends the child's markup, or nothing for an unrecognised tag. */
  method AppendChild(markdown: string, child: Node) returns (r: string)
    requires Transcribable(child)
    ensures r == markdown + Markup(child)
  {
    r := markdown;
    if child.Link? {
      r := r + ("[" + child.text + "](" + child.href.value + ")");
    } else if child.Text? {
      r := r + child.s;
    } else if child.Sub? {
      r := r + ("<sub>" + child.t + "</sub>");
    } else if child.Sup? {
      r := r + ("<sup>" + child.t + "</sup>");
    } else if child.Strong? {
      r := r + ("**" + child.t + "**");
    } else if child.Em? {
      r := r + ("*" + child.t + "*");
    } else if child.Code? {
      r := r + ("`" + child.t + "`");
    }
  }

  /** Builds the transcript with the nested loops over paragraphs and their children. */
  method TranscribeDoc(doc: Doc) returns (r: Result<string, ScrapeError>)
    ensures r == Transcribe(doc)
  {
    if |doc.headings| == 0 {
      return Failure(NoHeading);
    }
    ghost var title := doc.headings[0] + ": ";
    var markdown := doc.headings[0] + ": ";
    var paragraphs := DropLast(doc.paragraphs);
    var i := 0;
    while i < |paragraphs|
      invariant 0 <= i <= |paragraphs|
      invariant BodyTranscribable(paragraphs[..i])
      invariant markdown == title + BodyMarkup(paragraphs[..i])
    {
      var p := paragraphs[i];
      ghost var done := markdown;
      var j := 0;
      while j < |p|
        invariant 0 <= j <= |p|
        invariant ParagraphTranscribable(p[..j])
        invariant markdown == done + ParagraphMarkup(p[..j])
      {
        var child := p[j];
        if child.Link? && child.href.None? {
          assert Transcribe(doc) == Failure(MissingHref) by {
            assert !ParagraphTranscribable(paragraphs[i]);
          }
          return Failure(MissingHref);
        }
        markdown := AppendChild(markdown, child);
        AppendAssoc(done, ParagraphMarkup(p[..j]), Markup(child));
        ParagraphStep(p, j);
        TranscribableStep(p, j);
        j := j + 1;
      }
      assert p[..j] == p;
      markdown := markdown + " ";
      AppendAssoc(title, BodyMarkup(paragraphs[..i]), ParagraphMarkup(p));
      AppendAssoc(title, BodyMarkup(paragraphs[..i]) + ParagraphMarkup(p), " ");
      BodyStep(paragraphs, i);
      BodyTranscribableStep(paragraphs, i);
      i := i + 1;
    }
    assert Transcribe(doc) == Success(StripTabs(markdown)) by {
      assert paragraphs[..i] == paragraphs;
    }
    r := Success(StripTabs(markdown));
  }
}
