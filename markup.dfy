// The two markup renderers of the chat box: the bold replacement with the
// regular expression /\*\*(.*?)\*\*/g shared by both, `formatMessage` (lines
// split on `\n`, classified as paragraph or list item) and the bubble renderer
// that turns every `\n` into `<br/>`. Output is HTML text that is not escaped:
// every character outside a matched `**…**` pair is copied through as it is.
module Markup {

  import opened Wrappers
  import opened Text

  /** One piece of a text after bold recognition: a character copied literally, or the body of a matched `**…**` pair. */
  datatype Span = Plain(c: char) | Strong(inner: string)

  /** A paragraph (`<p>`) or a list item (`<li>`) holding unescaped HTML. */
  datatype Block = Paragraph(html: string) | ListItem(html: string)

  /** The opening tag `formatMessage` substitutes for `**`. */
  const FormattedOpen: string := "<strong class=" + ['"'] + "font-extrabold text-slate-900" + ['"'] + ">"
  /** The opening tag the bubble renderer substitutes for `**`. */
  const BubbleOpen: string := "<strong>"
  const StrongClose: string := "</strong>"
  const LineBreak: string := "<br/>"

  /** A `**` starts at index `j`. */
  predicate PairAt(s: string, j: int) {
    0 <= j && j + 2 <= |s| && s[j] == '*' && s[j + 1] == '*'
  }

  /**
   * Where the lazy `(.*?)` stops when the body starts at `i`: the first `**`
   * at or after `i`, provided no line terminator (which `.` refuses) comes first.
   */
  function FindClose(s: string, i: nat): (k: Option<nat>)
    requires i <= |s|
    ensures k.Some? ==> i <= k.value && PairAt(s, k.value)
    decreases |s| - i
  {
    if i + 2 > |s| then None
    else if PairAt(s, i) then Some(i)
    else if IsLineTerminator(s[i]) then None
    else FindClose(s, i + 1)
  }

  /**
   * The close is the first pair, with no line terminator before it; when
   * there is none, every later pair lies past a line terminator.
   */
  lemma {:induction false} FindCloseFirst(s: string, i: nat)
    requires i <= |s|
    ensures FindClose(s, i).Some? ==>
      forall j :: i <= j < FindClose(s, i).value ==> !PairAt(s, j) && !IsLineTerminator(s[j])
    ensures FindClose(s, i).None? ==>
      forall j :: i <= j && PairAt(s, j) ==> exists m :: i <= m < j && IsLineTerminator(s[m])
    decreases |s| - i
  {
    if i + 2 <= |s| && !PairAt(s, i) && !IsLineTerminator(s[i]) {
      FindCloseFirst(s, i + 1);
    }
  }

  /**
   * The left-to-right scan of a global regular-expression replacement: at each
   * position a `**` that has a closing `**` on the same line opens a match,
   * which resumes the scan after its closing `**`; anything else is one literal character.
   */
  function Spans(s: string): seq<Span>
    decreases |s|
  {
    if |s| == 0 then []
    else if PairAt(s, 0) && FindClose(s, 2).Some? then
      var k := FindClose(s, 2).value;
      [Strong(s[2..k])] + Spans(s[k + 2..])
    else [Plain(s[0])] + Spans(s[1..])
  }

  /** The text a span came from. */
  function SpanText(sp: Span): string {
    match sp
    case Plain(c) => [c]
    case Strong(x) => "**" + x + "**"
  }

  /** The text the spans came from. */
  function Unparse(spans: seq<Span>): string {
    if |spans| == 0 then [] else SpanText(spans[0]) + Unparse(spans[1..])
  }

  /** The text a span turns into when each match becomes `open + $1 + close`. */
  function Render(spans: seq<Span>, open: string, close: string): string {
    if |spans| == 0 then []
    else
      (match spans[0]
       case Plain(c) => [c]
       case Strong(x) => open + x + close)
      + Render(spans[1..], open, close)
  }

  // s.replace(/\*\*(.*?)\*\*/g, open + '$1' + close)
  function ReplaceBold(s: string, open: string, close: string): string {
    Render(Spans(s), open, close)
  }

  /** `s.replace(/\n/g, '<br/>')`. */
  function BreakLines(s: string): string {
    if |s| == 0 then []
    else (if s[0] == '\n' then LineBreak else [s[0]]) + BreakLines(s[1..])
  }

  /** The HTML a message bubble shows for `content` (`ChatBox.tsx`, line 161). */
  function RenderBubble(content: string): string {
    BreakLines(ReplaceBold(content, BubbleOpen, StrongClose))
  }

  predicate IsBullet(c: char) {
    c == '•' || c == '-'
  }

  // line.replace(/^[•-]\s*/, ''): a marker and the white space after it go only from column 0.
  function StripMarker(line: string): string {
    if |line| > 0 && IsBullet(line[0]) then TrimStart(line[1..]) else line
  }

  /** The block `formatMessage` makes of one line. */
  function FormatLine(line: string): Block {
    var html := ReplaceBold(line, FormattedOpen, StrongClose);
    if StartsWith(Trim(html), "•") || StartsWith(Trim(html), "-") then ListItem(StripMarker(html))
    else Paragraph(html)
  }

  /**
   * `formatMessage`: one block per `\n`-separated line, empty lines included,
   * so one block more than there are line breaks; a block is a list item
   * exactly when its line's first visible character is a bullet.
   */
  function FormatMessage(content: string): (blocks: seq<Block>)
    ensures |blocks| == |Split(content, '\n')| == CountChar(content, '\n') + 1
    ensures forall i :: 0 <= i < |blocks| ==> (blocks[i].ListItem? <==> BulletFirst(Split(content, '\n')[i]))
  {
    var lines := Split(content, '\n');
    SplitPieces(content, '\n');
    ListItemsIffBullets(lines);
    seq(|lines|, i requires 0 <= i < |lines| => FormatLine(lines[i]))
  }

  // ---------------------------------------------------------------------------
  // The bold replacement

  /** Nothing is lost or invented by the scan: the spans spell out the input again. */
  lemma {:induction false} UnparseSpans(s: string)
    ensures Unparse(Spans(s)) == s
    decreases |s|, 1
  {
    if |s| > 0 {
      if PairAt(s, 0) && FindClose(s, 2).Some? {
        UnparseSpansMatch(s);
      } else {
        UnparseSpansPlain(s);
      }
    }
  }

  /** `UnparseSpans` when the input opens with a matched pair. */
  lemma {:induction false} UnparseSpansMatch(s: string)
    requires |s| >= 2 && PairAt(s, 0) && FindClose(s, 2).Some?
    ensures Unparse(Spans(s)) == s
    decreases |s|, 0
  {
    var k := FindClose(s, 2).value;
    var rest := s[k + 2..];
    assert Spans(s) == [Strong(s[2..k])] + Spans(rest);
    UnparseSpans(rest);
    UnparseCons(Strong(s[2..k]), Spans(rest));
    AroundPair(s, k);
  }

  /** A string that opens with `**` and has `**` at `k` is the two pairs around the text between them, then the rest. */
  lemma AroundPair(s: string, k: nat)
    requires PairAt(s, 0) && 2 <= k && PairAt(s, k)
    ensures s == "**" + s[2..k] + "**" + s[k + 2..]
  {
    assert s[..2] == "**" && s[k..k + 2] == "**";
    assert s == s[..2] + s[2..k] + s[k..k + 2] + s[k + 2..];
  }

  /** `UnparseSpans` when the first character is literal. */
  lemma {:induction false} UnparseSpansPlain(s: string)
    requires |s| > 0 && !(PairAt(s, 0) && FindClose(s, 2).Some?)
    ensures Unparse(Spans(s)) == s
    decreases |s|, 0
  {
    UnparseSpans(s[1..]);
    UnparseCons(Plain(s[0]), Spans(s[1..]));
    assert s == [s[0]] + s[1..];
  }

  lemma UnparseCons(sp: Span, rest: seq<Span>)
    ensures Unparse([sp] + rest) == SpanText(sp) + Unparse(rest)
  {
    assert ([sp] + rest)[1..] == rest;
  }

  /** Every matched body is the shortest one: it holds no `**` and no line terminator. */
  lemma {:induction false} StrongBodies(s: string)
    ensures forall n :: 0 <= n < |Spans(s)| && Spans(s)[n].Strong? ==>
      (forall j :: 0 <= j < |Spans(s)[n].inner| ==> !IsLineTerminator(Spans(s)[n].inner[j]) && !PairAt(Spans(s)[n].inner, j))
    decreases |s|
  {
    if |s| > 0 {
      if PairAt(s, 0) && FindClose(s, 2).Some? {
        var k := FindClose(s, 2).value;
        FindCloseFirst(s, 2);
        StrongBodies(s[k + 2..]);
        var sp := Spans(s);
        assert sp == [Strong(s[2..k])] + Spans(s[k + 2..]);
        forall n | 0 <= n < |sp| && sp[n].Strong?
          ensures forall j :: 0 <= j < |sp[n].inner| ==> !IsLineTerminator(sp[n].inner[j]) && !PairAt(sp[n].inner, j)
        {
          if n == 0 {
            forall j | 0 <= j < |sp[0].inner|
              ensures !IsLineTerminator(sp[0].inner[j]) && !PairAt(sp[0].inner, j)
            {
              assert sp[0].inner[j] == s[j + 2];
              assert !PairAt(s, j + 2);
            }
          } else {
            assert sp[n] == Spans(s[k + 2..])[n - 1];
          }
        }
      } else {
        StrongBodies(s[1..]);
        var sp := Spans(s);
        assert forall n :: 1 <= n < |sp| ==> sp[n] == Spans(s[1..])[n - 1];
      }
    }
  }

  /** Replacing each match by the markers themselves gives the input back: the replacement touches nothing but the pairs. */
  lemma OnlyMarkersReplaced(s: string)
    ensures ReplaceBold(s, "**", "**") == s
  {
    RenderAsUnparse(Spans(s));
    UnparseSpans(s);
  }

  lemma {:induction false} RenderAsUnparse(spans: seq<Span>)
    ensures Render(spans, "**", "**") == Unparse(spans)
  {
    if |spans| > 0 {
      RenderAsUnparse(spans[1..]);
    }
  }

  /** With no `**` followed later by another `**`, nothing matches. */
  lemma {:induction false} NoPairAllPlain(s: string)
    requires forall p, q :: PairAt(s, p) && PairAt(s, q) ==> q < p + 2
    ensures |Spans(s)| == |s|
    ensures forall n :: 0 <= n < |Spans(s)| ==> Spans(s)[n] == Plain(s[n])
    decreases |s|
  {
    if |s| > 0 {
      if PairAt(s, 0) && FindClose(s, 2).Some? {
        assert false;
      }
      forall p, q | PairAt(s[1..], p) && PairAt(s[1..], q) ensures q < p + 2 {
        assert PairAt(s, p + 1) && PairAt(s, q + 1);
      }
      NoPairAllPlain(s[1..]);
    }
  }

  lemma {:induction false} RenderAllPlain(spans: seq<Span>, s: string, open: string, close: string)
    requires |spans| == |s|
    requires forall n :: 0 <= n < |spans| ==> spans[n] == Plain(s[n])
    ensures Render(spans, open, close) == s
  {
    if |spans| > 0 {
      RenderAllPlain(spans[1..], s[1..], open, close);
      assert s == [s[0]] + s[1..];
    }
  }

  /**
   * Text in which no `**` is followed by a second `**` comes back unchanged:
   * text without any `**`, and a lone (unmatched) `**` that stays literal.
   */
  lemma UnmatchedUnchanged(s: string, open: string, close: string)
    requires forall p, q :: PairAt(s, p) && PairAt(s, q) ==> q < p + 2
    ensures ReplaceBold(s, open, close) == s
  {
    NoPairAllPlain(s);
    RenderAllPlain(Spans(s), s, open, close);
  }

  /** A single bold pair whose body has no `*` and no line break turns into one tagged run. */
  lemma {:induction false} SinglePair(x: string, open: string, close: string)
    requires forall j :: 0 <= j < |x| ==> x[j] != '*' && !IsLineTerminator(x[j])
    ensures ReplaceBold("**" + x + "**", open, close) == open + x + close
  {
    var s := "**" + x + "**";
    assert PairAt(s, 0) && PairAt(s, |x| + 2);
    FindCloseSkips(s, 2, |x| + 2);
    assert s[2..|x| + 2] == x;
    assert s[|x| + 4..] == [];
    assert Spans(s) == [Strong(x)] + Spans([]);
    assert Render([Strong(x)], open, close) == open + x + close + Render([], open, close);
  }

  lemma {:induction false} FindCloseSkips(s: string, i: nat, k: nat)
    requires i <= k && PairAt(s, k)
    requires forall j :: i <= j < k ==> s[j] != '*' && !IsLineTerminator(s[j])
    ensures FindClose(s, i) == Some(k)
    decreases k - i
  {
    if i < k {
      FindCloseSkips(s, i + 1, k);
    }
  }

  /** The answer "Try **wheat**" emphasises "wheat". */
  lemma WheatExample(content: string)
    requires content == "Try **wheat**"
    ensures RenderBubble(content) == "Try <strong>wheat</strong>"
  {
    var r := WheatBold(content);
    assert r == "Try <strong>wheat</strong>";
    WheatNoBreak(r);
  }

  /** The bold step of the example: the pair becomes the bubble's tags. */
  lemma WheatBold(content: string) returns (r: string)
    requires content == "Try **wheat**"
    ensures r == "Try " + BubbleOpen + "wheat" + StrongClose
    ensures ReplaceBold(content, BubbleOpen, StrongClose) == r
  {
    var p, x := "Try ", "wheat";
    assert content == p + "**" + x + "**";
    PrefixThenPair(p, x, BubbleOpen, StrongClose);
    r := p + BubbleOpen + x + StrongClose;
  }

  /** The line-break step of the example: there is no `\n` to replace. */
  lemma WheatNoBreak(r: string)
    requires r == "Try <strong>wheat</strong>"
    ensures BreakLines(r) == r
  {
    forall j | 0 <= j < |r|
      ensures r[j] != '\n'
    {
      assert r[j] in r;
    }
    BreakLinesNoNewline(r);
  }

  /** Literal text followed by one bold pair: the text is copied, the pair becomes one tagged run. */
  lemma PrefixThenPair(p: string, x: string, open: string, close: string)
    requires forall j :: 0 <= j < |p| ==> p[j] != '*'
    requires forall j :: 0 <= j < |x| ==> x[j] != '*' && !IsLineTerminator(x[j])
    ensures ReplaceBold(p + "**" + x + "**", open, close) == p + open + x + close
  {
    var s := p + "**" + x + "**";
    PlainPrefix(s, |p|, open, close);
    assert s[..|p|] == p;
    assert s[|p|..] == "**" + x + "**";
    SinglePair(x, open, close);
  }

  /** A prefix free of `*` is copied literally. */
  lemma {:induction false} PlainPrefix(s: string, n: nat, open: string, close: string)
    requires n <= |s|
    requires forall j :: 0 <= j < n ==> s[j] != '*'
    ensures ReplaceBold(s, open, close) == s[..n] + ReplaceBold(s[n..], open, close)
  {
    if n > 0 {
      assert !PairAt(s, 0);
      assert Spans(s) == [Plain(s[0])] + Spans(s[1..]);
      PlainPrefix(s[1..], n - 1, open, close);
      assert s[1..][n - 1..] == s[n..];
      assert s[..n] == [s[0]] + s[1..][..n - 1];
    }
  }

  // ---------------------------------------------------------------------------
  // Bold pairs never reach across a line break

  lemma {:induction false} FindCloseAcrossBreak(a: string, b: string, i: nat)
    requires i <= |a|
    ensures FindClose(a + "\n" + b, i) == FindClose(a, i)
    decreases |a| - i
  {
    var s := a + "\n" + b;
    if i + 2 <= |a| {
      assert PairAt(s, i) == PairAt(a, i);
      assert s[i] == a[i];
      FindCloseAcrossBreak(a, b, i + 1);
    } else if i == |a| {
      assert s[i] == '\n';
    } else {
      assert s[i + 1] == '\n' && s[i] == a[i];
      if !IsLineTerminator(s[i]) {
        assert !PairAt(s, i);
        FindCloseAcrossBreak(a, b, i + 1);
      }
    }
  }

  /** Splitting the input at a line break splits the spans there. */
  lemma {:induction false} SpansAcrossBreak(a: string, b: string)
    ensures Spans(a + "\n" + b) == Spans(a) + [Plain('\n')] + Spans(b)
    decreases |a|
  {
    var s := a + "\n" + b;
    if |a| == 0 {
      assert s == "\n" + b;
      assert !PairAt(s, 0);
      assert s[1..] == b;
    } else if |a| >= 2 && PairAt(a, 0) && FindClose(a, 2).Some? {
      SpansAcrossBreakMatch(a, b);
    } else {
      SpansAcrossBreakPlain(a, b);
    }
  }

  lemma {:induction false} SpansAcrossBreakMatch(a: string, b: string)
    requires |a| >= 2 && PairAt(a, 0) && FindClose(a, 2).Some?
    ensures Spans(a + "\n" + b) == Spans(a) + [Plain('\n')] + Spans(b)
    decreases |a|, 0
  {
    var s := a + "\n" + b;
    var k := FindClose(a, 2).value;
    var x, r := a[2..k], a[k + 2..];
    assert Spans(s) == [Strong(x)] + Spans(r + "\n" + b) by {
      FindCloseAcrossBreak(a, b, 2);
      assert PairAt(s, 0);
      SpansAtPair(s, k);
      assert s[2..k] == x;
      assert s[k + 2..] == r + "\n" + b;
    }
    SpansAtPair(a, k);
    SpansAcrossBreak(r, b);
    ConsThenBreak(Spans(s), Spans(a), Strong(x), Spans(r), Spans(b));
  }

  lemma ConsThenBreak(whole: seq<Span>, left: seq<Span>, x: Span, rest: seq<Span>, right: seq<Span>)
    requires whole == [x] + (rest + [Plain('\n')] + right)
    requires left == [x] + rest
    ensures whole == left + [Plain('\n')] + right
  {
  }

  /** A leading pair closed at `k` is one bold span, and the scan resumes after the close. */
  lemma SpansAtPair(s: string, k: nat)
    requires |s| >= 2 && PairAt(s, 0) && FindClose(s, 2) == Some(k)
    ensures k + 2 <= |s|
    ensures Spans(s) == [Strong(s[2..k])] + Spans(s[k + 2..])
  {
  }

  // ---------------------------------------------------------------------------
  // The scan takes every leftmost match

  /**
   * What a span starting at position `p` of `s` says about the text: a
   * plain character is the text's character and no match of the pattern
   * starts there; a bold span is the match that starts there, closed at
   * the first `**` of its line.
   */
  predicate SpanAt(s: string, sp: Span, p: int) {
    match sp
    case Plain(c) => 0 <= p < |s| && s[p] == c && !(PairAt(s, p) && FindClose(s, p + 2).Some?)
    case Strong(x) => PairAt(s, p) && FindClose(s, p + 2) == Some(p + 2 + |x|) && x == s[p + 2..p + 2 + |x|]
  }

  /** The spans, laid end to end from position `p` of `s`, each hold where they start. */
  predicate SpansFrom(s: string, spans: seq<Span>, p: int)
    decreases |spans|
  {
    |spans| == 0 || (SpanAt(s, spans[0], p) && SpansFrom(s, spans[1..], p + |SpanText(spans[0])|))
  }

  /** Looking for the close in a suffix is looking for it in the whole text, shifted. */
  lemma {:induction false} FindCloseShift(s: string, p: nat, j: nat)
    requires p + j <= |s|
    ensures FindClose(s[p..], j).None? <==> FindClose(s, p + j).None?
    ensures FindClose(s[p..], j).Some? ==> FindClose(s, p + j) == Some(FindClose(s[p..], j).value + p)
    decreases |s| - p - j
  {
    var t := s[p..];
    assert forall m :: 0 <= m < |t| ==> t[m] == s[p + m];
    if j + 2 <= |t| && !PairAt(t, j) && !IsLineTerminator(t[j]) {
      assert !PairAt(s, p + j);
      FindCloseShift(s, p, j + 1);
    } else if j + 2 <= |t| && PairAt(t, j) {
      assert PairAt(s, p + j);
    }
  }

  /**
   * The global replacement takes every match, leftmost first: scanning
   * from any position, each span is a match exactly when it is bold, so a
   * `**` that has a close on its line at a position the scan reaches is
   * always replaced.
   */
  lemma SpansLeftmost(s: string)
    ensures SpansFrom(s, Spans(s), 0)
  {
    SpansLeftmostFrom(s, 0);
    assert s[0..] == s;
  }

  lemma {:induction false} SpansLeftmostFrom(s: string, p: nat)
    requires p <= |s|
    ensures SpansFrom(s, Spans(s[p..]), p)
    decreases |s| - p
  {
    if p < |s| {
      var q := FirstSpan(s, p);
      SpansLeftmostFrom(s, q);
    }
  }

  /**
   * The first span of the suffix at `p` sits at `p` in the whole text and
   * ends at `q`, so the spans from `q` on extend to the spans from `p` on.
   */
  lemma FirstSpan(s: string, p: nat) returns (q: nat)
    requires p < |s|
    ensures p < q <= |s|
    ensures SpansFrom(s, Spans(s[q..]), q) ==> SpansFrom(s, Spans(s[p..]), p)
  {
    var t := s[p..];
    if PairAt(t, 0) && FindClose(t, 2).Some? {
      q := FirstSpanMatch(s, p, FindClose(t, 2).value);
    } else {
      q := FirstSpanPlain(s, p);
    }
  }

  lemma FirstSpanMatch(s: string, p: nat, k: nat) returns (q: nat)
    requires p < |s| && |s[p..]| >= 2 && PairAt(s[p..], 0) && FindClose(s[p..], 2) == Some(k)
    ensures p < q <= |s|
    ensures SpansFrom(s, Spans(s[q..]), q) ==> SpansFrom(s, Spans(s[p..]), p)
  {
    var x;
    x, q := MatchSplit(s, p, k);
    if SpansFrom(s, Spans(s[q..]), q) {
      SpansFromCons(s, Spans(s[p..]), x, Spans(s[q..]), p, q);
    }
  }

  lemma FirstSpanPlain(s: string, p: nat) returns (q: nat)
    requires p < |s| && !(PairAt(s[p..], 0) && FindClose(s[p..], 2).Some?)
    ensures p < q <= |s|
    ensures SpansFrom(s, Spans(s[q..]), q) ==> SpansFrom(s, Spans(s[p..]), p)
  {
    var x;
    x, q := PlainSplit(s, p);
    if SpansFrom(s, Spans(s[q..]), q) {
      SpansFromCons(s, Spans(s[p..]), x, Spans(s[q..]), p, q);
    }
  }

  /** The pair that opens at `p` is the first span of the suffix there. */
  lemma MatchSplit(s: string, p: nat, k: nat) returns (x: Span, q: nat)
    requires p < |s| && |s[p..]| >= 2 && PairAt(s[p..], 0) && FindClose(s[p..], 2) == Some(k)
    ensures p < q <= |s| && q == p + |SpanText(x)|
    ensures SpanAt(s, x, p)
    ensures Spans(s[p..]) == [x] + Spans(s[q..])
  {
    var t := s[p..];
    x := Strong(t[2..k]);
    q := p + k + 2;
    assert SpanAt(s, x, p) && q <= |s| && q == p + |SpanText(x)| by {
      StrongSpanAt(s, p, k);
    }
    assert Spans(t) == [x] + Spans(s[q..]) by {
      SpansAtPair(t, k);
      assert t[k + 2..] == s[q..];
    }
  }

  lemma SpansFromCons(s: string, spans: seq<Span>, x: Span, rest: seq<Span>, p: int, q: int)
    requires spans == [x] + rest && q == p + |SpanText(x)|
    requires SpanAt(s, x, p) && SpansFrom(s, rest, q)
    ensures SpansFrom(s, spans, p)
  {
    assert spans[0] == x && spans[1..] == rest;
  }

  /** A match found in a suffix is a match of the whole text at the suffix's start. */
  lemma StrongSpanAt(s: string, p: nat, k: nat)
    requires p < |s| && |s[p..]| >= 2 && PairAt(s[p..], 0) && FindClose(s[p..], 2) == Some(k)
    ensures 2 <= k && k + 2 <= |s| - p
    ensures SpanAt(s, Strong(s[p..][2..k]), p)
  {
    var t := s[p..];
    assert PairAt(t, k);
    FindCloseShift(s, p, 2);
    assert t[0] == s[p] && t[1] == s[p + 1];
    assert t[2..k] == s[p + 2..p + k];
  }

  /** A character that opens no match is the first span of the suffix at `p`. */
  lemma PlainSplit(s: string, p: nat) returns (x: Span, q: nat)
    requires p < |s| && !(PairAt(s[p..], 0) && FindClose(s[p..], 2).Some?)
    ensures p < q <= |s| && q == p + |SpanText(x)|
    ensures SpanAt(s, x, p)
    ensures Spans(s[p..]) == [x] + Spans(s[q..])
  {
    var t := s[p..];
    x, q := Plain(t[0]), p + 1;
    assert Spans(t) == [x] + Spans(t[1..]);
    assert t[1..] == s[q..];
    if PairAt(s, p) {
      assert PairAt(t, 0);
      FindCloseShift(s, p, 2);
    }
  }

  /** Two pairs on one line, with star-free text between them, are both replaced. */
  lemma TwoPairs(x: string, m: string, y: string, open: string, close: string)
    requires forall j :: 0 <= j < |x| ==> x[j] != '*' && !IsLineTerminator(x[j])
    requires forall j :: 0 <= j < |m| ==> m[j] != '*'
    requires forall j :: 0 <= j < |y| ==> y[j] != '*' && !IsLineTerminator(y[j])
    ensures ReplaceBold("**" + x + "**" + m + "**" + y + "**", open, close) == open + x + close + m + open + y + close
  {
    var rest := m + "**" + y + "**";
    var s := "**" + x + "**" + rest;
    assert PairAt(s, 0) && PairAt(s, |x| + 2);
    FindCloseSkips(s, 2, |x| + 2);
    assert s[2..|x| + 2] == x;
    assert s[|x| + 4..] == rest;
    SpansAtPair(s, |x| + 2);
    RenderConcat([Strong(x)], Spans(rest), open, close);
    assert Render([Strong(x)], open, close) == open + x + close + Render([], open, close);
    PrefixThenPair(m, y, open, close);
    assert "**" + x + "**" + m + "**" + y + "**" == s;
  }

  lemma {:induction false} SpansAcrossBreakPlain(a: string, b: string)
    requires |a| > 0 && !(|a| >= 2 && PairAt(a, 0) && FindClose(a, 2).Some?)
    ensures Spans(a + "\n" + b) == Spans(a) + [Plain('\n')] + Spans(b)
    decreases |a|, 0
  {
    var s := a + "\n" + b;
    if |a| >= 2 {
      FindCloseAcrossBreak(a, b, 2);
    }
    assert !(PairAt(s, 0) && FindClose(s, 2).Some?);
    assert Spans(s) == [Plain(s[0])] + Spans(s[1..]);
    assert Spans(a) == [Plain(a[0])] + Spans(a[1..]);
    assert s[1..] == a[1..] + "\n" + b;
    SpansAcrossBreak(a[1..], b);
  }

  lemma {:induction false} RenderConcat(x: seq<Span>, y: seq<Span>, open: string, close: string)
    ensures Render(x + y, open, close) == Render(x, open, close) + Render(y, open, close)
  {
    if |x| > 0 {
      RenderConcat(x[1..], y, open, close);
      assert (x + y)[1..] == x[1..] + y;
    } else {
      assert x + y == y;
    }
  }

  lemma {:induction false} BreakLinesConcat(x: string, y: string)
    ensures BreakLines(x + y) == BreakLines(x) + BreakLines(y)
  {
    if |x| > 0 {
      BreakLinesConcat(x[1..], y);
      assert (x + y)[1..] == x[1..] + y;
    } else {
      assert x + y == y;
    }
  }

  lemma {:induction false} BreakLinesNoNewline(x: string)
    requires forall j :: 0 <= j < |x| ==> x[j] != '\n'
    ensures BreakLines(x) == x
  {
    if |x| > 0 {
      BreakLinesNoNewline(x[1..]);
      assert x == [x[0]] + x[1..];
    }
  }

  /**
   * The bubble renderer works line by line: the HTML of `a + "\n" + b` is the
   * HTML of `a`, a `<br/>`, then the HTML of `b`. So the whole-text replacement
   * of line 161 emphasises exactly what the per-line replacement of
   * `formatMessage` does.
   */
  lemma RenderBubbleAcrossBreak(a: string, b: string)
    ensures RenderBubble(a + "\n" + b) == RenderBubble(a) + LineBreak + RenderBubble(b)
  {
    SpansAcrossBreak(a, b);
    RenderConcat(Spans(a) + [Plain('\n')], Spans(b), BubbleOpen, StrongClose);
    RenderConcat(Spans(a), [Plain('\n')], BubbleOpen, StrongClose);
    var ra := Render(Spans(a), BubbleOpen, StrongClose);
    var rb := Render(Spans(b), BubbleOpen, StrongClose);
    assert Render([Plain('\n')], BubbleOpen, StrongClose) == "\n";
    BreakLinesConcat(ra + "\n", rb);
    BreakLinesConcat(ra, "\n");
  }

  /** The bubble HTML never contains a raw line break. */
  lemma {:induction false} RenderBubbleNoNewline(x: string)
    ensures forall j :: 0 <= j < |BreakLines(x)| ==> BreakLines(x)[j] != '\n'
  {
    if |x| > 0 {
      RenderBubbleNoNewline(x[1..]);
      var head := if x[0] == '\n' then LineBreak else [x[0]];
      assert BreakLines(x) == head + BreakLines(x[1..]);
      forall j | 0 <= j < |BreakLines(x)| ensures BreakLines(x)[j] != '\n' {
        if j >= |head| {
          assert BreakLines(x)[j] == BreakLines(x[1..])[j - |head|];
        }
      }
    }
  }

  // ---------------------------------------------------------------------------
  // formatMessage

  predicate BulletFirst(s: string) {
    FirstNonSpace(s).Some? && IsBullet(FirstNonSpace(s).value)
  }

  lemma FirstNonSpaceConcat(x: string, y: string)
    requires |x| > 0
    ensures IsSpace(x[0]) ==> FirstNonSpace(x + y) == FirstNonSpace(x[1..] + y)
    ensures !IsSpace(x[0]) ==> FirstNonSpace(x + y) == Some(x[0])
  {
    assert (x + y)[0] == x[0];
    assert (x + y)[1..] == x[1..] + y;
  }

  /** Bold replacement with a tag starting with `<` keeps the first visible character's bullet-ness. */
  lemma {:induction false} RenderKeepsBulletFirst(spans: seq<Span>, open: string, close: string)
    requires |open| > 0 && !IsSpace(open[0]) && !IsBullet(open[0])
    ensures BulletFirst(Render(spans, open, close)) == BulletFirst(Unparse(spans))
  {
    if |spans| > 0 {
      var r := Render(spans[1..], open, close);
      var u := Unparse(spans[1..]);
      match spans[0]
      case Plain(c) =>
        FirstNonSpaceConcat([c], r);
        FirstNonSpaceConcat([c], u);
        if IsSpace(c) {
          RenderKeepsBulletFirst(spans[1..], open, close);
          assert [c][1..] + r == r && [c][1..] + u == u;
        }
      case Strong(x) =>
        FirstNonSpaceConcat(open + x + close, r);
        FirstNonSpaceConcat("**" + x + "**", u);
        assert (open + x + close)[0] == open[0];
        assert ("**" + x + "**")[0] == '*';
    }
  }

  /** `formatMessage` makes a list item exactly when the source line's first visible character is `•` or `-`. */
  lemma ListItemIffBullet(line: string)
    ensures FormatLine(line).ListItem? <==> BulletFirst(line)
  {
    var html := ReplaceBold(line, FormattedOpen, StrongClose);
    TrimStartsWithChar(html, '•');
    TrimStartsWithChar(html, '-');
    assert "•" == ['•'] && "-" == ['-'];
    assert FormattedOpen[0] == '<';
    RenderKeepsBulletFirst(Spans(line), FormattedOpen, StrongClose);
    UnparseSpans(line);
  }

  /** A bullet at column 0 is dropped together with the white space after it. */
  lemma MarkerAtColumnZero(line: string)
    requires |line| > 0 && IsBullet(line[0])
    ensures FormatLine(line) == ListItem(TrimStart(ReplaceBold(line[1..], FormattedOpen, StrongClose)))
  {
    ListItemIffBullet(line);
    assert !PairAt(line, 0);
    assert Spans(line) == [Plain(line[0])] + Spans(line[1..]);
  }

  /** An indented bullet still makes a list item, but the marker stays in its text. */
  lemma IndentedMarkerKept(line: string)
    requires |line| > 0 && IsSpace(line[0]) && BulletFirst(line)
    ensures FormatLine(line) == ListItem(ReplaceBold(line, FormattedOpen, StrongClose))
  {
    ListItemIffBullet(line);
    assert !PairAt(line, 0);
    assert Spans(line) == [Plain(line[0])] + Spans(line[1..]);
  }

  /** A line with no bold pair and no bullet is one paragraph with its text unchanged. */
  lemma PlainLineParagraph(line: string)
    requires forall p, q :: PairAt(line, p) && PairAt(line, q) ==> q < p + 2
    requires !BulletFirst(line)
    ensures FormatLine(line) == Paragraph(line)
  {
    ListItemIffBullet(line);
    UnmatchedUnchanged(line, FormattedOpen, StrongClose);
  }

  /** `formatMessage("**x**")` is one paragraph holding `x` inside one emphasis tag. */
  lemma FormatSingleBold(x: string)
    requires forall j :: 0 <= j < |x| ==> x[j] != '*' && !IsLineTerminator(x[j])
    ensures FormatMessage("**" + x + "**") == [Paragraph(FormattedOpen + x + StrongClose)]
  {
    var s := "**" + x + "**";
    SplitNoSeparator(s, '\n');
    SinglePair(x, FormattedOpen, StrongClose);
    ListItemIffBullet(s);
    assert FirstNonSpace(s) == Some('*');
  }

  lemma {:induction false} SplitNoSeparator(s: string, sep: char)
    requires forall j :: 0 <= j < |s| ==> s[j] != sep
    ensures Split(s, sep) == [s]
    decreases |s|
  {
    if |s| > 0 {
      SplitNoSeparator(s[1..], sep);
      assert s == [s[0]] + s[1..];
    }
  }

  lemma ListItemsIffBullets(lines: seq<string>)
    ensures forall i :: 0 <= i < |lines| ==> (FormatLine(lines[i]).ListItem? <==> BulletFirst(lines[i]))
  {
    forall i | 0 <= i < |lines| {
      ListItemIffBullet(lines[i]);
    }
  }
}
