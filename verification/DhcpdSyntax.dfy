/** Tokens and block structure of ISC dhcpd files (agent/jt_ipam_agent.py:809-850).  From left to right the
    text is cut into string literals with backslash escapes, comments that reach to the end of their line,
    the four punctuation characters and words of any other characters but white space; a character that
    starts none of these is left out. */
module DhcpdSyntax {
  import opened PyText
  import opened Wrappers

  /** A quoted string is kept without its quotes, escapes untouched. */
  datatype Token = Str(body: string) | Word(text: string) | Comma | Semi | LBrace | RBrace

  /** `kids is None` in the source is a Stmt here. */
  datatype Node = Stmt(words: seq<string>) | Block(words: seq<string>, kids: seq<Node>)

  // ---- scanner ----

  predicate IsWordChar(c: char) {
    !IsSpace(c) && c !in "{};,\"#"
  }

  /** Length of the rest of a string literal, closing quote included; `t` begins after the opening
      quote.  A backslash takes the next character with it, but never a line break. */
  function StringLen(t: string): (n: Option<nat>)
    ensures n.Some? ==> 0 < n.value <= |t|
  {
    if t == "" then None
    else if t[0] == '\"' then Some(1)
    else
      var step := if t[0] == '\\' then 2 else 1;
      if |t| < step || (step == 2 && t[1] == '\n') then None
      else match StringLen(t[step..])
           case None => None
           case Some(n) => Some(step + n)
  }

  function WordLen(t: string): (n: nat)
    ensures n <= |t|
  {
    if t == "" || !IsWordChar(t[0]) then 0 else 1 + WordLen(t[1..])
  }

  /** Length of a comment: up to the line break, which stays. */
  function CommentLen(t: string): (n: nat)
    ensures n <= |t|
  {
    if t == "" || t[0] == '\n' then 0 else 1 + CommentLen(t[1..])
  }

  function Lex(t: string): seq<Token>
    decreases |t|
  {
    if t == "" then []
    else if t[0] == '\"' then
      match StringLen(t[1..])
      case None => Lex(t[1..])
      case Some(n) => [Str(t[1..n])] + Lex(t[1 + n..])
    else if t[0] == '#' then Lex(t[1 + CommentLen(t[1..])..])
    else if t[0] == '{' then [LBrace] + Lex(t[1..])
    else if t[0] == '}' then [RBrace] + Lex(t[1..])
    else if t[0] == ';' then [Semi] + Lex(t[1..])
    else if t[0] == ',' then [Comma] + Lex(t[1..])
    else if IsWordChar(t[0]) then
      var n := 1 + WordLen(t[1..]);
      [Word(t[..n])] + Lex(t[n..])
    else Lex(t[1..])
  }

  // ---- tree builder ----

  /** A block that has been opened: its words and the nodes that precede it in its parent. */
  datatype Open = Open(words: seq<string>, before: seq<Node>)

  /** `items` are the nodes so far of the innermost open block, `cur` the words of the next node. */
  datatype Builder = Builder(stack: seq<Open>, items: seq<Node>, cur: seq<string>)

  const EMPTY := Builder([], [], [])

  function Flush(b: Builder): Builder {
    Builder(b.stack, if b.cur == [] then b.items else b.items + [Stmt(b.cur)], [])
  }

  function Pop(b: Builder): Builder {
    if b.stack == [] then b
    else
      var n := |b.stack| - 1;
      Builder(b.stack[..n], b.stack[n].before + [Block(b.stack[n].words, b.items)], b.cur)
  }

  function Step(b: Builder, t: Token): Builder {
    match t
    case Semi => Flush(b)
    case LBrace => Builder(b.stack + [Open(b.cur, b.items)], [], [])
    case RBrace => Pop(Flush(b))
    case Str(w) => b.(cur := b.cur + [w])
    case Word(w) => b.(cur := b.cur + [w])
    case Comma => b.(cur := b.cur + [","])
  }

  function Fold(b: Builder, ts: seq<Token>): Builder
    decreases |ts|
  {
    if ts == [] then b else Fold(Step(b, ts[0]), ts[1..])
  }

  /** The whole tree: blocks still open are part of it, words without a terminator are not. */
  function Root(b: Builder): seq<Node>
    decreases |b.stack|
  {
    if b.stack == [] then b.items else Root(Pop(b))
  }

  function Tree(text: string): seq<Node> {
    Root(Fold(EMPTY, Lex(text)))
  }

  lemma {:induction false} FoldAppend(b: Builder, a: seq<Token>, c: seq<Token>)
    ensures Fold(b, a + c) == Fold(Fold(b, a), c)
    decreases |a|
  {
    if a == [] {
      assert a + c == c;
    } else {
      assert (a + c)[1..] == a[1..] + c;
      FoldAppend(Step(b, a[0]), a[1..], c);
    }
  }

  /** The source's loop, with its list of open lists kept as a stack of values. */
  method BuildTree(text: string) returns (root: seq<Node>)
    ensures root == Tree(text)
  {
    var tokens := Lex(text);
    var stack: seq<Open>, items: seq<Node>, cur: seq<string> := [], [], [];
    for i := 0 to |tokens|
      invariant Builder(stack, items, cur) == Fold(EMPTY, tokens[..i])
    {
      FoldAppend(EMPTY, tokens[..i], [tokens[i]]);
      assert tokens[..i + 1] == tokens[..i] + [tokens[i]];
      ghost var b := Builder(stack, items, cur);
      assert Fold(b, [tokens[i]]) == Fold(Step(b, tokens[i]), []);
      match tokens[i]
      case Semi =>
        if cur != [] { items := items + [Stmt(cur)]; }
        cur := [];
      case LBrace =>
        stack, items, cur := stack + [Open(cur, items)], [], [];
      case RBrace =>
        if cur != [] { items := items + [Stmt(cur)]; }
        cur := [];
        if stack != [] {
          var top := stack[|stack| - 1];
          items := top.before + [Block(top.words, items)];
          stack := stack[..|stack| - 1];
        }
      case Str(w) => cur := cur + [w];
      case Word(w) => cur := cur + [w];
      case Comma => cur := cur + [","];
    }
    assert tokens[..|tokens|] == tokens;
    ghost var b := Builder(stack, items, cur);
    while stack != []
      invariant Root(Builder(stack, items, cur)) == Root(b)
      decreases |stack|
    {
      var top := stack[|stack| - 1];
      assert Pop(Builder(stack, items, cur)) == Builder(stack[..|stack| - 1], top.before + [Block(top.words, items)], cur);
      items := top.before + [Block(top.words, items)];
      stack := stack[..|stack| - 1];
    }
    root := items;
  }

  // ---- printing ----

  ghost predicate Proper(f: seq<Node>) {
    forall i :: 0 <= i < |f| ==> (if f[i].Stmt? then f[i].words != [] else Proper(f[i].kids))
  }

  predicate Bare(w: string) {
    w != "" && forall i :: 0 <= i < |w| ==> IsWordChar(w[i])
  }

  /** Can stand between quotes as it is. */
  predicate Quotable(w: string)
    decreases |w|
  {
    if w == "" then true
    else if w[0] == '\\' then |w| >= 2 && w[1] != '\n' && Quotable(w[2..])
    else w[0] != '\"' && Quotable(w[1..])
  }

  function WordToken(w: string): Token {
    if w == "," then Comma else if Bare(w) then Word(w) else Str(w)
  }

  function WordTokens(ws: seq<string>): (ts: seq<Token>)
    ensures |ts| == |ws| && forall i :: 0 <= i < |ws| ==> ts[i] == WordToken(ws[i])
  {
    seq(|ws|, i requires 0 <= i < |ws| => WordToken(ws[i]))
  }

  function Flat(f: seq<Node>): seq<Token> {
    if f == [] then []
    else
      WordTokens(f[0].words)
      + (match f[0]
         case Stmt(_) => [Semi]
         case Block(_, kids) => [LBrace] + Flat(kids) + [RBrace])
      + Flat(f[1..])
  }

  lemma {:induction false} FoldWords(b: Builder, ws: seq<string>)
    ensures Fold(b, WordTokens(ws)) == b.(cur := b.cur + ws)
    decreases |ws|
  {
    if ws == [] {
      assert b.cur + ws == b.cur;
    } else {
      assert WordTokens(ws)[1..] == WordTokens(ws[1..]);
      FoldWords(b.(cur := b.cur + [ws[0]]), ws[1..]);
      assert b.cur + [ws[0]] + ws[1..] == b.cur + ws;
    }
  }

  lemma {:induction false} FoldOne(b: Builder, t: Token)
    ensures Fold(b, [t]) == Step(b, t)
  {
    assert Fold(b, [t]) == Fold(Step(b, t), [][..]);
  }

  /** Reading the tokens of a forest adds exactly that forest to the block being read. */
  lemma {:induction false} FoldFlat(b: Builder, f: seq<Node>)
    requires b.cur == [] && Proper(f)
    ensures Fold(b, Flat(f)) == b.(items := b.items + f)
    decreases f, 0
  {
    if f == [] {
      assert b.items + f == b.items;
    } else {
      var ws := WordTokens(f[0].words);
      FoldWords(b, f[0].words);
      var b1 := b.(cur := f[0].words);
      assert [] + f[0].words == f[0].words;
      var mid: seq<Token>;
      match f[0] {
        case Stmt(_) =>
          mid := [Semi];
          FoldOne(b1, Semi);
        case Block(words, kids) =>
          mid := [LBrace] + Flat(kids) + [RBrace];
          FoldBlock(b1, kids);
      }
      var b2 := b.(items := b.items + [f[0]]);
      assert Fold(b1, mid) == b2;
      FoldAppend(b, ws, mid);
      FoldAppend(b, ws + mid, Flat(f[1..]));
      FoldFlat(b2, f[1..]);
      FirstMoved(b.items, f);
    }
  }

  lemma FirstMoved(items: seq<Node>, f: seq<Node>)
    requires f != []
    ensures items + [f[0]] + f[1..] == items + f
  {
  }

  lemma {:induction false} FoldBlock(b: Builder, kids: seq<Node>)
    requires Proper(kids)
    ensures Fold(b, [LBrace] + Flat(kids) + [RBrace]) == Builder(b.stack, b.items + [Block(b.cur, kids)], [])
    decreases kids, 1
  {
    var inner := Builder(b.stack + [Open(b.cur, b.items)], [], []);
    FoldOne(b, LBrace);
    FoldFlat(inner, kids);
    assert [] + kids == kids;
    var done := inner.(items := kids);
    FoldOne(done, RBrace);
    FoldAppend(b, [LBrace], Flat(kids));
    FoldAppend(b, [LBrace] + Flat(kids), [RBrace]);
    assert done.stack[..|done.stack| - 1] == b.stack;
  }

  lemma TokensRoundTrip(f: seq<Node>)
    requires Proper(f)
    ensures Root(Fold(EMPTY, Flat(f))) == f
  {
    FoldFlat(EMPTY, f);
    assert [] + f == f;
  }

  /** A missing closing brace changes nothing once the last statement is terminated; nor does one too
      many. */
  lemma BracesForgiven(ts: seq<Token>)
    requires Fold(EMPTY, ts).cur == []
    ensures Root(Fold(EMPTY, ts + [RBrace])) == Root(Fold(EMPTY, ts))
  {
    FoldAppend(EMPTY, ts, [RBrace]);
    FoldOne(Fold(EMPTY, ts), RBrace);
    var b := Fold(EMPTY, ts);
    assert Flush(b) == b;
  }

  // ---- text ----

  /** What may stand between two tokens: a space character or a comment with its line break. */
  datatype Blank = Space(c: char) | Note(text: string)

  ghost predicate ProperGap(gap: seq<Blank>) {
    forall i :: 0 <= i < |gap| ==> if gap[i].Space? then IsSpace(gap[i].c) else '\n' !in gap[i].text
  }

  function BlankText(b: Blank): string {
    match b
    case Space(c) => [c]
    case Note(text) => "#" + text + "\n"
  }

  function GapText(gap: seq<Blank>): string {
    if gap == [] then "" else BlankText(gap[0]) + GapText(gap[1..])
  }

  function TokenText(t: Token): string {
    match t
    case Str(w) => "\"" + w + "\""
    case Word(w) => w
    case Comma => ","
    case Semi => ";"
    case LBrace => "{"
    case RBrace => "}"
  }

  /** The tokens with `gaps[i]` before the i-th of them and the last gap after the last. */
  function Text(ts: seq<Token>, gaps: seq<seq<Blank>>): string
    requires |gaps| == |ts| + 1
  {
    GapText(gaps[0]) + if ts == [] then "" else TokenText(ts[0]) + Text(ts[1..], gaps[1..])
  }

  ghost predicate ProperToken(t: Token) {
    (t.Str? ==> Quotable(t.body)) && (t.Word? ==> Bare(t.text))
  }

  /** Only two bare words need something between them. */
  ghost predicate ProperLayout(ts: seq<Token>, gaps: seq<seq<Blank>>) {
    && |gaps| == |ts| + 1
    && (forall i :: 0 <= i < |ts| ==> ProperToken(ts[i]))
    && (forall i :: 0 <= i < |gaps| ==> ProperGap(gaps[i]))
    && (forall i :: 0 < i < |ts| && ts[i - 1].Word? && ts[i].Word? ==> gaps[i] != [])
  }

  lemma {:induction false} CommentLenText(w: string, rest: string)
    requires '\n' !in w
    ensures CommentLen(w + "\n" + rest) == |w|
  {
    if w != "" {
      assert (w + "\n" + rest)[1..] == w[1..] + "\n" + rest;
      CommentLenText(w[1..], rest);
    }
  }

  lemma {:induction false} WordLenText(w: string, rest: string)
    requires forall i :: 0 <= i < |w| ==> IsWordChar(w[i])
    requires rest == "" || !IsWordChar(rest[0])
    ensures WordLen(w + rest) == |w|
  {
    if w != "" {
      assert (w + rest)[1..] == w[1..] + rest;
      WordLenText(w[1..], rest);
    } else {
      assert w + rest == rest;
    }
  }

  lemma {:induction false} StringLenText(w: string, rest: string)
    requires Quotable(w)
    ensures StringLen(w + "\"" + rest) == Some(|w| + 1)
    decreases |w|
  {
    var t := w + "\"" + rest;
    if w != "" {
      var step := if w[0] == '\\' then 2 else 1;
      assert t[0] == w[0] && (step == 2 ==> t[1] == w[1]);
      assert t[step..] == w[step..] + "\"" + rest;
      StringLenText(w[step..], rest);
    }
  }

  lemma LexNote(w: string, rest: string)
    requires '\n' !in w
    ensures Lex("#" + w + "\n" + rest) == Lex(rest)
  {
    var t := "#" + w + "\n" + rest;
    assert t[1..] == w + "\n" + rest;
    CommentLenText(w, rest);
    var u := t[1 + |w|..];
    assert u == "\n" + rest && u[1..] == rest;
  }

  lemma LexBlank(b: Blank, rest: string)
    requires ProperGap([b])
    ensures Lex(BlankText(b) + rest) == Lex(rest)
  {
    assert [b][0] == b;
    match b
    case Space(c) => assert ([c] + rest)[1..] == rest;
    case Note(w) => LexNote(w, rest);
  }

  lemma {:induction false} LexGap(gap: seq<Blank>, rest: string)
    requires ProperGap(gap)
    ensures Lex(GapText(gap) + rest) == Lex(rest)
    decreases |gap|
  {
    if gap == [] {
      assert GapText(gap) + rest == rest;
    } else {
      var b, more := BlankText(gap[0]), GapText(gap[1..]);
      LexGap(gap[1..], rest);
      LexBlank(gap[0], more + rest);
      assert (b + more) + rest == b + (more + rest);
    }
  }

  lemma GapStart(gap: seq<Blank>)
    requires ProperGap(gap) && gap != []
    ensures GapText(gap) != "" && !IsWordChar(GapText(gap)[0])
  {
  }

  lemma LexStr(w: string, rest: string)
    requires Quotable(w)
    ensures Lex("\"" + w + "\"" + rest) == [Str(w)] + Lex(rest)
  {
    var s := "\"" + w + "\"" + rest;
    assert s[1..] == w + "\"" + rest;
    StringLenText(w, rest);
    assert s[1..1 + |w|] == w && s[1 + (|w| + 1)..] == rest;
  }

  lemma LexWord(w: string, rest: string)
    requires Bare(w) && (rest == "" || !IsWordChar(rest[0]))
    ensures Lex(w + rest) == [Word(w)] + Lex(rest)
  {
    var s := w + rest;
    assert s[0] == w[0] && IsWordChar(w[0]);
    assert s[1..] == w[1..] + rest;
    WordLenText(w[1..], rest);
    assert s[..|w|] == w && s[|w|..] == rest;
  }

  lemma LexToken(t: Token, rest: string)
    requires ProperToken(t) && (t.Word? ==> rest == "" || !IsWordChar(rest[0]))
    ensures Lex(TokenText(t) + rest) == [t] + Lex(rest)
  {
    match t
    case Str(w) => LexStr(w, rest);
    case Word(w) => LexWord(w, rest);
    case _ =>
      assert (TokenText(t) + rest)[1..] == rest;
  }

  /** Scanning gives the tokens back whatever is put between them. */
  lemma {:induction false} LexText(ts: seq<Token>, gaps: seq<seq<Blank>>)
    requires ProperLayout(ts, gaps)
    ensures Lex(Text(ts, gaps)) == ts
    decreases |ts|
  {
    if ts == [] {
      LexGap(gaps[0], "");
    } else {
      var rest := Text(ts[1..], gaps[1..]);
      LexText(ts[1..], gaps[1..]);
      if gaps[1] != [] {
        GapStart(gaps[1]);
      }
      LexToken(ts[0], rest);
      LexGap(gaps[0], TokenText(ts[0]) + rest);
    }
  }

  // ---- round trip through text ----

  predicate Printable(w: string) {
    w == "," || Bare(w) || Quotable(w)
  }

  ghost predicate AllPrintable(ws: seq<string>) {
    forall w :: w in ws ==> Printable(w)
  }

  /** Statements have words, and every word has a spelling. */
  ghost predicate WellFormed(f: seq<Node>) {
    forall i :: 0 <= i < |f| ==>
      AllPrintable(f[i].words) && if f[i].Stmt? then f[i].words != [] else WellFormed(f[i].kids)
  }

  lemma WellFormedProper(f: seq<Node>)
    requires WellFormed(f)
    ensures Proper(f)
  {
    forall i | 0 <= i < |f| && f[i].Block? ensures Proper(f[i].kids) {
      WellFormedProper(f[i].kids);
    }
  }

  ghost predicate AllProper(ts: seq<Token>) {
    forall t :: t in ts ==> ProperToken(t)
  }

  lemma {:induction false} FlatProper(f: seq<Node>)
    requires WellFormed(f)
    ensures AllProper(Flat(f))
    decreases f
  {
    if f != [] {
      if f[0].Block? { FlatProper(f[0].kids); }
      FlatProper(f[1..]);
      forall t | t in WordTokens(f[0].words) ensures ProperToken(t) {
        var i :| 0 <= i < |f[0].words| && WordTokens(f[0].words)[i] == t;
        assert f[0].words[i] in f[0].words;
      }
    }
  }

  /** Printing a tree with any spaces and comments between the tokens and reading it gives it back. */
  lemma TextRoundTrip(f: seq<Node>, gaps: seq<seq<Blank>>)
    requires WellFormed(f) && ProperLayout(Flat(f), gaps)
    ensures Tree(Text(Flat(f), gaps)) == f
  {
    LexText(Flat(f), gaps);
    WellFormedProper(f);
    TokensRoundTrip(f);
  }

  lemma {:induction false} StringLenQuotable(t: string)
    requires StringLen(t).Some?
    ensures Quotable(t[..StringLen(t).value - 1])
    decreases |t|
  {
    if t[0] != '\"' {
      var step := if t[0] == '\\' then 2 else 1;
      StringLenQuotable(t[step..]);
      var w := t[..StringLen(t).value - 1];
      assert w[step..] == t[step..][..StringLen(t[step..]).value - 1];
      assert w[0] == t[0] && (step == 2 ==> w[1] == t[1]);
    } else {
      assert t[..0] == "";
    }
  }

  lemma {:induction false} WordLenBare(t: string)
    ensures forall i :: 0 <= i < WordLen(t) ==> IsWordChar(t[i])
  {
    if t != "" && IsWordChar(t[0]) {
      WordLenBare(t[1..]);
      forall i | 0 < i < WordLen(t) ensures IsWordChar(t[i]) {
        assert t[i] == t[1..][i - 1];
      }
    }
  }

  lemma {:induction false} LexProper(t: string)
    ensures AllProper(Lex(t))
    decreases |t|
  {
    if t != "" {
      if t[0] == '\"' {
        if StringLen(t[1..]).Some? {
          var n := StringLen(t[1..]).value;
          StringLenQuotable(t[1..]);
          assert t[1..n] == t[1..][..n - 1];
          LexProper(t[1 + n..]);
        } else {
          LexProper(t[1..]);
        }
      } else if t[0] == '#' {
        LexProper(t[1 + CommentLen(t[1..])..]);
      } else if IsWordChar(t[0]) {
        var n := 1 + WordLen(t[1..]);
        WordLenBare(t[1..]);
        assert forall i :: 0 < i < n ==> t[i] == t[1..][i - 1];
        LexProper(t[n..]);
      } else {
        LexProper(t[1..]);
      }
    }
  }

  ghost predicate WellFormedBuilder(b: Builder) {
    && WellFormed(b.items) && AllPrintable(b.cur)
    && forall i :: 0 <= i < |b.stack| ==> WellFormed(b.stack[i].before) && AllPrintable(b.stack[i].words)
  }

  lemma {:induction false} FoldWellFormed(b: Builder, ts: seq<Token>)
    requires WellFormedBuilder(b) && AllProper(ts)
    ensures WellFormedBuilder(Fold(b, ts))
    decreases |ts|
  {
    if ts != [] {
      assert ts[0] in ts && forall t :: t in ts[1..] ==> t in ts;
      StepWellFormed(b, ts[0]);
      FoldWellFormed(Step(b, ts[0]), ts[1..]);
    }
  }

  lemma StepWellFormed(b: Builder, t: Token)
    requires WellFormedBuilder(b) && ProperToken(t)
    ensures WellFormedBuilder(Step(b, t))
  {
  }

  lemma {:induction false} RootWellFormed(b: Builder)
    requires WellFormedBuilder(b)
    ensures WellFormed(Root(b))
    decreases |b.stack|
  {
    if b.stack != [] {
      RootWellFormed(Pop(b));
    }
  }

  /** Every text whatsoever is read as a well-formed tree. */
  lemma TreeWellFormed(text: string)
    ensures WellFormed(Tree(text))
  {
    LexProper(text);
    FoldWellFormed(EMPTY, Lex(text));
    RootWellFormed(Fold(EMPTY, Lex(text)));
  }

  /** Reading, printing and reading again changes nothing, for every text and every layout. */
  lemma ReprintedUnchanged(text: string, gaps: seq<seq<Blank>>)
    requires ProperLayout(Flat(Tree(text)), gaps)
    ensures Tree(Text(Flat(Tree(text)), gaps)) == Tree(text)
  {
    TreeWellFormed(text);
    TextRoundTrip(Tree(text), gaps);
  }

  /** One space between any two tokens is always a proper layout. */
  lemma SpacedLayout(f: seq<Node>)
    requires WellFormed(f)
    ensures ProperLayout(Flat(f), seq(|Flat(f)| + 1, i => [Space(' ')]))
  {
    FlatProper(f);
  }
}
