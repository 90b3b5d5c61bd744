/** The light-weight markup of card descriptions. A description is split into
    lines at `\n`; on each line every `**X**` becomes a bold span and then
    every `__X__` an underline span (two global regexes whose group is the
    lazy `(.*?)`), a line starting with "• " becomes a list item, and the
    lines are joined with `<br/>`. Nothing is escaped. The regexes are modelled
    by a left-to-right scanner: at each position either the shortest match
    starts there or one character is copied and the scan moves on. */
module Markup {
  import opened Options
  import opened JsStrings

  const BoldOpen := "<span class=\"font-bold\">"
  const UnderlineOpen := "<span class=\"underline\">"
  const SpanClose := "</span>"
  const Bullet := "\U{2022} "
  const ListOpen := "<li class=\"ml-4\">"
  const ListClose := "</li>"
  const LineBreak := "<br/>"

  // ---------------------------------------------------------------------------
  // One global lazy substitution `/cc(.*?)cc/g`

  /** The delimiter `ch ch` starts at index `k` of `s`. */
  predicate PairAt(s: string, ch: char, k: int) {
    0 <= k && k + 1 < |s| && s[k] == ch && s[k + 1] == ch
  }

  /** `s` holds no `ch ch` anywhere. */
  predicate NoPair(s: string, ch: char) {
    forall k :: 0 <= k < |s| ==> !PairAt(s, ch, k)
  }

  /** `s` does not end with `ch`. */
  predicate NotEndingIn(s: string, ch: char) {
    s == [] || s[|s| - 1] != ch
  }

  /** No character of `s` in `[lo, hi)` is a line terminator, so `.` can
      match all of them. */
  predicate TerminatorFree(s: string, lo: int, hi: int) {
    forall k :: lo <= k < hi && 0 <= k < |s| ==> !IsLineTerminator(s[k])
  }

  /** Where the lazy group `(.*?)` that starts at `j` ends: the first `q >= j`
      holding the closing `ch ch`, as long as the characters before it are
      not line terminators. `None` when every closing pair is cut off by a
      line terminator. */
  function CloseAt(s: string, ch: char, j: nat): (q: Option<nat>)
    requires j <= |s|
    ensures q.Some? ==> && j <= q.value
                        && PairAt(s, ch, q.value)
                        && TerminatorFree(s, j, q.value)
                        && (forall k :: j <= k < q.value ==> !PairAt(s, ch, k))
    ensures q.None? ==> forall k :: j <= k && PairAt(s, ch, k) ==> !TerminatorFree(s, j, k)
    decreases |s| - j
  {
    if PairAt(s, ch, j) then Some(j)
    else if j < |s| && !IsLineTerminator(s[j]) then CloseAt(s, ch, j + 1)
    else None
  }

  /** The global replace of the regex "cc, lazy group, cc" (with `c` being
      `ch`) by `open + "$1" + close`. */
  function SubstitutePairs(s: string, ch: char, open: string, close: string): string
    decreases |s|
  {
    if s == [] then []
    else if PairAt(s, ch, 0) then
      match CloseAt(s, ch, 2)
      case Some(q) => open + s[2..q] + close + SubstitutePairs(s[q + 2..], ch, open, close)
      case None => [s[0]] + SubstitutePairs(s[1..], ch, open, close)
    else [s[0]] + SubstitutePairs(s[1..], ch, open, close)
  }

  /** Where no delimiter starts, one character is copied. */
  lemma SubstituteCopies(s: string, ch: char, open: string, close: string)
    requires s != [] && !PairAt(s, ch, 0)
    ensures SubstitutePairs(s, ch, open, close) == [s[0]] + SubstitutePairs(s[1..], ch, open, close)
  {
  }

  /** Dropping the first character keeps a text delimiter-free. */
  lemma NoPairTail(s: string, ch: char)
    requires s != [] && NoPair(s, ch)
    ensures NoPair(s[1..], ch) && !PairAt(s, ch, 0)
  {
    forall k | 0 <= k < |s[1..]| ensures !PairAt(s[1..], ch, k) {
      assert PairAt(s[1..], ch, k) ==> PairAt(s, ch, k + 1);
    }
  }

  /** Text without the delimiter passes through unchanged. */
  lemma {:induction false} SubstituteNoPair(s: string, ch: char, open: string, close: string)
    requires NoPair(s, ch)
    ensures SubstitutePairs(s, ch, open, close) == s
    decreases |s|
  {
    if s != [] {
      NoPairTail(s, ch);
      SubstituteNoPair(s[1..], ch, open, close);
      SubstituteCopies(s, ch, open, close);
      assert s == [s[0]] + s[1..];
    }
  }

  /** No delimiter starts at the first character of a delimiter-free text
      that does not end in `ch`, whatever follows it. */
  lemma NoPairAtFront(t: string, rest: string, ch: char)
    requires t != [] && NoPair(t, ch) && NotEndingIn(t, ch)
    ensures !PairAt(t + rest, ch, 0)
    ensures (t + rest)[0] == t[0] && (t + rest)[1..] == t[1..] + rest
    ensures NoPair(t[1..], ch) && NotEndingIn(t[1..], ch)
  {
    NoPairTail(t, ch);
    if |t| >= 2 {
      assert (t + rest)[1] == t[1];
    } else {
      assert t[0] == t[|t| - 1];
    }
  }

  /** A delimiter-free stretch that does not end half-way into a delimiter is
      copied, and the scan resumes right after it. */
  lemma {:induction false} SubstitutePrefix(t: string, rest: string, ch: char, open: string, close: string)
    requires NoPair(t, ch) && NotEndingIn(t, ch)
    ensures SubstitutePairs(t + rest, ch, open, close) == t + SubstitutePairs(rest, ch, open, close)
    decreases |t|
  {
    if t != [] {
      NoPairAtFront(t, rest, ch);
      SubstitutePrefix(t[1..], rest, ch, open, close);
      SubstituteCopies(t + rest, ch, open, close);
      assert t == [t[0]] + t[1..];
    } else {
      assert t + rest == rest;
    }
  }

  /** The lazy group ends at the first closing pair when no line terminator
      comes before it. */
  lemma {:induction false} CloseAtFirst(s: string, ch: char, j: nat, q: nat)
    requires j <= q && PairAt(s, ch, q) && TerminatorFree(s, j, q)
    requires forall k :: j <= k < q ==> !PairAt(s, ch, k)
    ensures CloseAt(s, ch, j) == Some(q)
    decreases q - j
  {
    if j < q {
      CloseAtFirst(s, ch, j + 1, q);
    }
  }

  /** One delimited run `cc x cc` whose inside holds neither the delimiter
      nor a line terminator becomes `open + x + close`. */
  lemma SubstituteMarked(x: string, rest: string, ch: char, open: string, close: string)
    requires NoPair(x, ch) && NotEndingIn(x, ch) && TerminatorFree(x, 0, |x|)
    ensures SubstitutePairs([ch, ch] + x + [ch, ch] + rest, ch, open, close)
         == open + x + close + SubstitutePairs(rest, ch, open, close)
  {
    var s := [ch, ch] + x + [ch, ch] + rest;
    var q := 2 + |x|;
    assert s[2..q] == x;
    assert s[q + 2..] == rest;
    forall k | 2 <= k < q ensures !PairAt(s, ch, k) {
      if k + 1 < q {
        assert PairAt(s, ch, k) ==> PairAt(x, ch, k - 2);
      } else {
        assert s[k] == x[|x| - 1];
      }
    }
    assert TerminatorFree(s, 2, q) by {
      forall k | 2 <= k < q ensures !IsLineTerminator(s[k]) {
        assert s[k] == x[k - 2];
      }
    }
    CloseAtFirst(s, ch, 2, q);
  }

  /** An opening delimiter with no closing one after it is left as it is. */
  lemma SubstituteUnclosed(t: string, ch: char, open: string, close: string)
    requires NoPair(t, ch)
    ensures SubstitutePairs([ch, ch] + t, ch, open, close) == [ch, ch] + t
  {
    var s := [ch, ch] + t;
    assert PairAt(s, ch, 0);
    assert forall k :: 2 <= k && PairAt(s, ch, k) ==> PairAt(t, ch, k - 2);
    assert CloseAt(s, ch, 2).None?;
    var s1 := s[1..];
    assert s1 == [ch] + t;
    assert s1[1..] == t;
    assert SubstitutePairs(s, ch, open, close) == [ch] + SubstitutePairs(s1, ch, open, close);
    if t != [] && t[0] == ch {
      assert PairAt(s1, ch, 0);
      assert forall k :: 2 <= k && PairAt(s1, ch, k) ==> PairAt(t, ch, k - 1);
      assert CloseAt(s1, ch, 2).None?;
    } else {
      assert !PairAt(s1, ch, 0);
    }
    assert SubstitutePairs(s1, ch, open, close) == [ch] + SubstitutePairs(t, ch, open, close);
    SubstituteNoPair(t, ch, open, close);
  }

  // ---------------------------------------------------------------------------
  // Lines built from delimited runs

  /** A stretch of a line as one substitution pass sees it: copied text, or a
      delimited run. */
  datatype Piece = Text(text: string) | Marked(inner: string)

  /** The pieces as written in the source text. */
  function Source(pieces: seq<Piece>, ch: char): string {
    if pieces == [] then []
    else
      match pieces[0]
      case Text(t) => t + Source(pieces[1..], ch)
      case Marked(x) => [ch, ch] + x + [ch, ch] + Source(pieces[1..], ch)
  }

  /** The pieces with every run replaced. */
  function Target(pieces: seq<Piece>, open: string, close: string): string {
    if pieces == [] then []
    else
      match pieces[0]
      case Text(t) => t + Target(pieces[1..], open, close)
      case Marked(x) => open + x + close + Target(pieces[1..], open, close)
  }

  /** Every piece is unambiguous for the pass over `ch`: no piece holds the
      delimiter or ends with `ch`, and no run holds a line terminator. */
  predicate PiecesOk(pieces: seq<Piece>, ch: char) {
    forall i :: 0 <= i < |pieces| ==>
      match pieces[i]
      case Text(t) => NoPair(t, ch) && NotEndingIn(t, ch)
      case Marked(x) => NoPair(x, ch) && NotEndingIn(x, ch) && TerminatorFree(x, 0, |x|)
  }

  /** One pass replaces exactly the delimited runs and copies the rest. */
  lemma {:induction false} SubstitutePieces(pieces: seq<Piece>, ch: char, open: string, close: string)
    requires PiecesOk(pieces, ch)
    ensures SubstitutePairs(Source(pieces, ch), ch, open, close) == Target(pieces, open, close)
  {
    if pieces != [] {
      assert PiecesOk(pieces[1..], ch) by {
        forall i | 0 <= i < |pieces| - 1 ensures pieces[1..][i] == pieces[i + 1] {
        }
      }
      SubstitutePieces(pieces[1..], ch, open, close);
      var rest := Source(pieces[1..], ch);
      match pieces[0]
      case Text(t) =>
        SubstitutePrefix(t, rest, ch, open, close);
      case Marked(x) =>
        SubstituteMarked(x, rest, ch, open, close);
    }
  }

  // ---------------------------------------------------------------------------
  // Formatting a line and a description

  /** The bold substitution of a line. */
  function Embolden(line: string): string {
    SubstitutePairs(line, '*', BoldOpen, SpanClose)
  }

  /** The underline substitution of a line. */
  function Underscore(line: string): string {
    SubstitutePairs(line, '_', UnderlineOpen, SpanClose)
  }

  /** The bullet check: a line starting with "• " loses those two characters
      and becomes a list item. */
  function ListItem(processed: string): string {
    if StartsWith(processed, Bullet) then ListOpen + processed[2..] + ListClose else processed
  }

  /** The per-line callback: bold, then underline, then the bullet check. */
  function FormatLine(line: string): string {
    ListItem(Underscore(Embolden(line)))
  }

  function FormatLines(lines: seq<string>): (out: seq<string>)
    ensures |out| == |lines|
    ensures forall i :: 0 <= i < |lines| ==> out[i] == FormatLine(lines[i])
  {
    seq(|lines|, i requires 0 <= i < |lines| => FormatLine(lines[i]))
  }

  /** `renderFormattedText` of the editor preview: no guard for the empty
      text. */
  function RenderFormattedText(text: string): string {
    Join(FormatLines(Split(text, '\n')), LineBreak)
  }

  /** `formatDescription` of the card and the share page: the empty text is
      answered directly. */
  function FormatDescription(text: string): string {
    if text == [] then [] else Join(FormatLines(Split(text, '\n')), LineBreak)
  }

  /** The empty description renders as nothing, with or without the guard. */
  lemma EmptyDescription()
    ensures FormatDescription("") == ""
    ensures RenderFormattedText("") == ""
  {
    assert SubstitutePairs("", '*', BoldOpen, SpanClose) == "";
    assert SubstitutePairs("", '_', UnderlineOpen, SpanClose) == "";
    assert FormatLine("") == "";
    assert FormatLines(Split("", '\n')) == [""];
  }

  /** The editor preview and the card render every text the same way. */
  lemma PreviewMatchesCard(text: string)
    ensures RenderFormattedText(text) == FormatDescription(text)
  {
    if text == [] {
      EmptyDescription();
    }
  }

  /** The output has one formatted line per `\n`-separated input line, in
      order, separated by `<br/>`. */
  lemma DescriptionByLines(lines: seq<string>)
    requires |lines| >= 1
    requires forall i :: 0 <= i < |lines| ==> '\n' !in lines[i]
    ensures RenderFormattedText(Join(lines, "\n")) == Join(FormatLines(lines), LineBreak)
  {
    SplitJoin(lines, '\n');
  }

  /** A line with neither delimiter that does not start with the bullet is
      shown as it is. */
  lemma PlainLineUnchanged(line: string)
    requires NoPair(line, '*') && NoPair(line, '_')
    requires !StartsWith(line, Bullet)
    ensures FormatLine(line) == line
  {
    SubstituteNoPair(line, '*', BoldOpen, SpanClose);
    SubstituteNoPair(line, '_', UnderlineOpen, SpanClose);
  }

  /** A bullet line without delimiters loses its two bullet characters and
      becomes a list item. */
  lemma BulletLine(rest: string)
    requires NoPair(Bullet + rest, '*') && NoPair(Bullet + rest, '_')
    ensures FormatLine(Bullet + rest) == ListOpen + rest + ListClose
  {
    SubstituteNoPair(Bullet + rest, '*', BoldOpen, SpanClose);
    SubstituteNoPair(Bullet + rest, '_', UnderlineOpen, SpanClose);
    assert (Bullet + rest)[..2] == Bullet;
    assert (Bullet + rest)[2..] == rest;
  }

  // ---------------------------------------------------------------------------
  // Lines written with bold and underline runs

  /** A stretch of a line as its author means it. */
  datatype Span = Plain(text: string) | Bold(text: string) | Underline(text: string)

  /** The span written in markup. */
  function SpanMarkup(sp: Span): string {
    match sp
    case Plain(t) => t
    case Bold(x) => "**" + x + "**"
    case Underline(x) => "__" + x + "__"
  }

  /** The span as the HTML the formatter is meant to produce. */
  function SpanHtml(sp: Span): string {
    match sp
    case Plain(t) => t
    case Bold(x) => BoldOpen + x + SpanClose
    case Underline(x) => UnderlineOpen + x + SpanClose
  }

  function MarkupText(spans: seq<Span>): string {
    if spans == [] then [] else SpanMarkup(spans[0]) + MarkupText(spans[1..])
  }

  function HtmlText(spans: seq<Span>): string {
    if spans == [] then [] else SpanHtml(spans[0]) + HtmlText(spans[1..])
  }

  /** The text of a span holds neither delimiter and does not end with a
      delimiter character; a bold or underlined text stays on its line. */
  predicate SpanOk(sp: Span) {
    && NoPair(sp.text, '*') && NoPair(sp.text, '_')
    && NotEndingIn(sp.text, '*') && NotEndingIn(sp.text, '_')
    && (!sp.Plain? ==> TerminatorFree(sp.text, 0, |sp.text|))
  }

  predicate SpansOk(spans: seq<Span>) {
    forall i :: 0 <= i < |spans| ==> SpanOk(spans[i])
  }

  /** How the bold pass sees a span. */
  function BoldPiece(sp: Span): Piece {
    match sp
    case Plain(t) => Text(t)
    case Bold(x) => Marked(x)
    case Underline(x) => Text("__" + x + "__")
  }

  /** How the underline pass sees a span, once the bold pass is done. */
  function UnderlinePiece(sp: Span): Piece {
    match sp
    case Plain(t) => Text(t)
    case Bold(x) => Text(BoldOpen + x + SpanClose)
    case Underline(x) => Marked(x)
  }

  function BoldPieces(spans: seq<Span>): (ps: seq<Piece>)
    ensures |ps| == |spans|
    ensures forall i :: 0 <= i < |spans| ==> ps[i] == BoldPiece(spans[i])
  {
    seq(|spans|, i requires 0 <= i < |spans| => BoldPiece(spans[i]))
  }

  function UnderlinePieces(spans: seq<Span>): (ps: seq<Piece>)
    ensures |ps| == |spans|
    ensures forall i :: 0 <= i < |spans| ==> ps[i] == UnderlinePiece(spans[i])
  {
    seq(|spans|, i requires 0 <= i < |spans| => UnderlinePiece(spans[i]))
  }

  /** Gluing two delimiter-free texts creates no delimiter when the first
      does not end with `ch`. */
  lemma NoPairConcat(a: string, b: string, ch: char)
    requires NoPair(a, ch) && NoPair(b, ch) && NotEndingIn(a, ch)
    ensures NoPair(a + b, ch)
  {
    forall k ensures !PairAt(a + b, ch, k) {
      if k + 1 < |a| {
        assert PairAt(a + b, ch, k) ==> PairAt(a, ch, k);
      } else if k >= |a| {
        assert PairAt(a + b, ch, k) ==> PairAt(b, ch, k - |a|);
      }
    }
  }

  /** A text without `ch` has no `ch ch`. */
  lemma NoPairWithout(s: string, ch: char)
    requires ch !in s
    ensures NoPair(s, ch) && NotEndingIn(s, ch)
  {
    forall k ensures !PairAt(s, ch, k) {
      if 0 <= k < |s| {
        assert s[k] in s;
      }
    }
    if s != [] {
      assert s[|s| - 1] in s;
    }
  }

  lemma {:induction false} SplitSpans(spans: seq<Span>)
    requires spans != []
    ensures BoldPieces(spans)[1..] == BoldPieces(spans[1..])
    ensures UnderlinePieces(spans)[1..] == UnderlinePieces(spans[1..])
  {
  }

  /** The bold pass sees the markup as its pieces, and leaves exactly what the
      underline pass sees as its pieces. */
  lemma {:induction false} PassesLineUp(spans: seq<Span>)
    ensures Source(BoldPieces(spans), '*') == MarkupText(spans)
    ensures Target(BoldPieces(spans), BoldOpen, SpanClose) == Source(UnderlinePieces(spans), '_')
    ensures Target(UnderlinePieces(spans), UnderlineOpen, SpanClose) == HtmlText(spans)
  {
    if spans != [] {
      SplitSpans(spans);
      PassesLineUp(spans[1..]);
    }
  }

  /** Well-formed spans give pieces both passes read unambiguously. */
  lemma PiecesOfSpansOk(spans: seq<Span>)
    requires SpansOk(spans)
    ensures PiecesOk(BoldPieces(spans), '*')
    ensures PiecesOk(UnderlinePieces(spans), '_')
  {
    forall i | 0 <= i < |spans|
      ensures match BoldPiece(spans[i])
        case Text(t) => NoPair(t, '*') && NotEndingIn(t, '*')
        case Marked(x) => NoPair(x, '*') && NotEndingIn(x, '*') && TerminatorFree(x, 0, |x|)
      ensures match UnderlinePiece(spans[i])
        case Text(t) => NoPair(t, '_') && NotEndingIn(t, '_')
        case Marked(x) => NoPair(x, '_') && NotEndingIn(x, '_') && TerminatorFree(x, 0, |x|)
    {
      match spans[i]
      case Plain(t) =>
      case Bold(x) =>
        NoPairWithout(BoldOpen, '_');
        NoPairWithout(SpanClose, '_');
        NoPairConcat(BoldOpen, x, '_');
        NoPairConcat(BoldOpen + x, SpanClose, '_');
      case Underline(x) =>
        NoPairWithout("__", '*');
        NoPairConcat("__", x, '*');
        NoPairConcat("__" + x, "__", '*');
    }
  }

  /** The bold pass turns the markup of the spans into their bold HTML,
      leaving the underline runs for the next pass. */
  lemma EmboldenSpans(spans: seq<Span>)
    requires SpansOk(spans)
    ensures Embolden(MarkupText(spans)) == Source(UnderlinePieces(spans), '_')
  {
    PassesLineUp(spans);
    PiecesOfSpansOk(spans);
    SubstitutePieces(BoldPieces(spans), '*', BoldOpen, SpanClose);
  }

  /** The underline pass then completes the HTML of the spans. */
  lemma UnderscoreSpans(spans: seq<Span>)
    requires SpansOk(spans)
    ensures Underscore(Source(UnderlinePieces(spans), '_')) == HtmlText(spans)
  {
    PassesLineUp(spans);
    PiecesOfSpansOk(spans);
    SubstitutePieces(UnderlinePieces(spans), '_', UnderlineOpen, SpanClose);
  }

  /** The line callback is the bullet check after the two passes. */
  lemma FormatLineSteps(line: string, bolded: string, processed: string)
    requires Embolden(line) == bolded && Underscore(bolded) == processed
    ensures FormatLine(line) == ListItem(processed)
  {
  }

  /** A line written as bold, underlined and plain runs renders as the HTML
      of those runs, as a list item when it starts with the bullet. */
  lemma FormatSpans(spans: seq<Span>)
    requires SpansOk(spans)
    ensures FormatLine(MarkupText(spans)) == ListItem(HtmlText(spans))
  {
    EmboldenSpans(spans);
    UnderscoreSpans(spans);
    FormatLineSteps(MarkupText(spans), Source(UnderlinePieces(spans), '_'), HtmlText(spans));
  }
}
