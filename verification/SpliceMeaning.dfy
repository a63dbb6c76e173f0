/** What a spliced statement means to a reader of string literals with backslash escapes, quoted names and comments
    (`proxy/server/executor_stmt.go`). */
module SpliceMeaning {
  import opened Lists
  import opened Splice

  const BACKTICK: char := '`'

  /** A statement as its reader sees it: literals and quoted names, comments, and single characters between them. */
  datatype Token = Char(c: char) | Literal(q: char, content: string) | Remark(content: string)

  /** Where the reader is: between the quoted parts, after nothing of note, one minus, two, or a slash; inside a
      literal, or behind a backslash there; inside a quoted name; inside a comment to the end of the line, or to the
      next star and slash. */
  datatype Mode =
    | Between | Minus | MinusMinus | Slash
    | Inside(q: char) | Escaped(q: char)
    | Name
    | Line | Block | Star

  predicate Code(m: Mode) { m.Between? || m.Minus? || m.MinusMinus? || m.Slash? }

  /** The reader after some text: its mode, the quoted part or comment so far, and the tokens completed. */
  datatype Reader = Reader(mode: Mode, content: string, tokens: seq<Token>)

  function NextCode(m: Mode, c: char): Mode {
    if c == '-' then (if m.Minus? || m.MinusMinus? then MinusMinus else Minus)
    else if c == '/' then Slash
    else Between
  }

  /** One character: the next mode, the quoted part or comment so far, and the token it completes, if any. */
  datatype Step = Step(mode: Mode, content: string, emit: seq<Token>)

  /** Two minus signs open a comment only before a space or control character. */
  function CodeStep(m: Mode, c: char): Step {
    if IsQuote(c) then Step(Inside(c), "", [])
    else if c == BACKTICK then Step(Name, "", [])
    else if c == '#' || (m.MinusMinus? && c <= ' ' && c != '\n') then Step(Line, "", [])
    else if m.Slash? && c == '*' then Step(Block, "", [])
    else Step(NextCode(m, c), "", [Char(c)])
  }

  function QuotedStep(m: Mode, content: string, c: char): Step
    requires !Code(m)
  {
    match m
    case Inside(q) =>
      if c == BACKSLASH then Step(Escaped(q), content, [])
      else if c == q then Step(Between, "", [Literal(q, content)])
      else Step(m, content + [c], [])
    case Escaped(q) => Step(Inside(q), content + [c], [])
    case Name =>
      if c == BACKTICK then Step(Between, "", [Literal(BACKTICK, content)]) else Step(m, content + [c], [])
    case Line =>
      if c == '\n' then Step(Between, "", [Remark(content)]) else Step(m, content + [c], [])
    case Block => Step(if c == '*' then Star else Block, content + [c], [])
    case Star =>
      if c == '/' then Step(Between, "", [Remark(content)])
      else Step(if c == '*' then Star else Block, content + [c], [])
  }

  function Next(m: Mode, content: string, c: char): Step {
    if Code(m) then CodeStep(m, c) else QuotedStep(m, content, c)
  }

  function ReadChar(r: Reader, c: char): Reader {
    var n := Next(r.mode, r.content, c);
    Reader(n.mode, n.content, if n.emit == [] then r.tokens else r.tokens + n.emit)
  }

  function ReadText(r: Reader, s: string): Reader {
    if s == [] then r else ReadChar(ReadText(r, s[..|s| - 1]), s[|s| - 1])
  }

  const START := Reader(Between, "", [])

  lemma {:induction false} ReadConcat(r: Reader, a: string, b: string)
    ensures ReadText(r, a + b) == ReadText(ReadText(r, a), b)
  {
    if b == [] {
      assert a + b == a;
    } else {
      var n := |b| - 1;
      assert (a + b)[..|a + b| - 1] == a + b[..n];
      ReadConcat(r, a, b[..n]);
    }
  }

  lemma ReadOne(r: Reader, s: string, c: char)
    ensures ReadText(r, s + [c]) == ReadChar(ReadText(r, s), c)
  {
    assert (s + [c])[..|s|] == s;
  }

  lemma ReadSingle(r: Reader, c: char)
    ensures ReadText(r, [c]) == ReadChar(r, c)
  {
    assert [c][..0] == [];
    assert ReadText(r, []) == r;
  }

  lemma ReadMark(r: Reader)
    requires Code(r.mode)
    ensures ReadChar(r, '?') == Reader(Between, "", r.tokens + [Char('?')])
  {
  }

  /** A digit or a question mark inside a quoted part or comment. */
  lemma ReadInside(r: Reader, c: char)
    requires !Code(r.mode) && (r.mode.Inside? ==> IsQuote(r.mode.q)) && (c == '1' || c == '?')
    ensures var next := ReadChar(r, c);
            !Code(next.mode) && next.content == r.content + [c] && next.tokens == r.tokens
  {
  }

  // ---------------------------------------------------------------- one argument

  lemma ReadEscapedChar(r: Reader, c: char)
    requires r.mode == Inside(APOSTROPHE)
    ensures ReadText(r, EscapeChar(c)) == r.(content := r.content + [c])
  {
    if c == BACKSLASH || c == APOSTROPHE {
      assert [BACKSLASH, c][..1] == [BACKSLASH] && [BACKSLASH][..0] == [];
      assert ReadText(r, [BACKSLASH]) == r.(mode := Escaped(APOSTROPHE));
    } else {
      assert [c][..0] == [];
    }
  }

  lemma ReadTwice(r: Reader, a: string, b: string, mid: Reader, end: Reader)
    requires ReadText(r, a) == mid && ReadText(mid, b) == end
    ensures ReadText(r, a + b) == end
  {
    ReadConcat(r, a, b);
  }

  lemma ReadEscapedNext(r: Reader, s: string)
    requires r.mode == Inside(APOSTROPHE) && s != []
    ensures var n := |s| - 1;
            ReadText(r.(content := r.content + s[..n]), EscapeChar(s[n])) == r.(content := r.content + s)
  {
    var n := |s| - 1;
    ReadEscapedChar(r.(content := r.content + s[..n]), s[n]);
    assert r.content + s[..n] + [s[n]] == r.content + s;
  }

  /** Escaped text inside a literal adds exactly the text to its content. */
  lemma {:induction false} ReadEscaped(r: Reader, s: string)
    requires r.mode == Inside(APOSTROPHE)
    ensures ReadText(r, Escape(s)) == r.(content := r.content + s)
  {
    if s == [] {
      assert r.content + s == r.content;
    } else {
      var n := |s| - 1;
      var mid, end := r.(content := r.content + s[..n]), r.(content := r.content + s);
      ReadEscaped(r, s[..n]);
      ReadEscapedNext(r, s);
      ReadTwice(r, Escape(s[..n]), EscapeChar(s[n]), mid, end);
    }
  }

  /** Text that prints as it is, such as a number: nothing that opens a literal, a name or a comment, nothing to
      escape, and no minus at its end. */
  predicate Printable(s: string) { s != [] && s[|s| - 1] != '-' && forall i :: 0 <= i < |s| ==> Harmless(s[i]) }

  predicate Harmless(c: char) {
    c > ' ' && c != BACKSLASH && !IsQuote(c) && c != BACKTICK && c != '#' && c != '*' && c != '/'
  }

  /** What an argument should be read as. */
  function ArgTokens(a: Arg): seq<Token> {
    match a
    case Null => Chars(NULL_TEXT)
    case Bytes(bytes) => [Literal(APOSTROPHE, bytes)]
    case Plain(text) => Chars(text)
  }

  function Chars(s: string): seq<Token> { seq(|s|, i requires 0 <= i < |s| => Char(s[i])) }

  lemma {:induction false} EscapePrintable(s: string)
    requires forall i :: 0 <= i < |s| ==> Harmless(s[i])
    ensures Escape(s) == s
  {
    if s != [] {
      var n := |s| - 1;
      EscapePrintable(s[..n]);
      assert Harmless(s[n]);
      assert Escape(s) == s[..n] + [s[n]] == s;
    }
  }

  lemma CharsStep(s: string)
    requires s != []
    ensures Chars(s) == Chars(s[..|s| - 1]) + [Char(s[|s| - 1])]
  {
  }

  lemma {:induction false} ReadHarmless(m: Mode, tokens: seq<Token>, s: string)
    requires Code(m) && forall i :: 0 <= i < |s| ==> Harmless(s[i])
    ensures var r := ReadText(Reader(m, "", tokens), s);
            Code(r.mode) && r.content == "" && r.tokens == tokens + Chars(s)
    ensures s != [] && s[|s| - 1] != '-' ==> ReadText(Reader(m, "", tokens), s).mode == Between
  {
    if s == [] {
      assert tokens + Chars(s) == tokens;
    } else {
      var n := |s| - 1;
      ReadHarmless(m, tokens, s[..n]);
      CharsStep(s);
      var before := ReadText(Reader(m, "", tokens), s[..n]);
      assert Harmless(s[n]);
      assert ReadChar(before, s[n]) == Reader(NextCode(before.mode, s[n]), "", before.tokens + [Char(s[n])]);
      assert before.tokens + [Char(s[n])] == tokens + (Chars(s[..n]) + [Char(s[n])]);
    }
  }

  predicate Sendable(a: Arg) { a.Plain? ==> Printable(a.text) }

  lemma ReadPlain(m: Mode, tokens: seq<Token>, s: string)
    requires Code(m) && Printable(s)
    ensures ReadText(Reader(m, "", tokens), Escape(s)) == Reader(Between, "", tokens + Chars(s))
  {
    EscapePrintable(s);
    ReadHarmless(m, tokens, s);
  }

  /** A rendered argument is read as exactly that argument, and the reader is between quoted parts again. */
  lemma ReadRendered(m: Mode, tokens: seq<Token>, a: Arg)
    requires Code(m) && Sendable(a)
    ensures ReadText(Reader(m, "", tokens), Rendered(a)) == Reader(Between, "", tokens + ArgTokens(a))
  {
    match a
    case Null =>
      ReadPlain(m, tokens, NULL_TEXT);
    case Plain(text) =>
      ReadPlain(m, tokens, text);
    case Bytes(bytes) =>
      ReadQuoted(m, tokens, bytes);
  }

  lemma OpenQuote(r: Reader)
    requires Code(r.mode)
    ensures ReadText(r, [APOSTROPHE]) == Reader(Inside(APOSTROPHE), "", r.tokens)
  {
    ReadSingle(r, APOSTROPHE);
  }

  lemma CloseQuote(r: Reader)
    requires r.mode == Inside(APOSTROPHE)
    ensures ReadText(r, [APOSTROPHE]) == Reader(Between, "", r.tokens + [Literal(APOSTROPHE, r.content)])
  {
    ReadSingle(r, APOSTROPHE);
  }

  lemma ReadQuoted(m: Mode, tokens: seq<Token>, bytes: string)
    requires Code(m)
    ensures ReadText(Reader(m, "", tokens), [APOSTROPHE] + Escape(bytes) + [APOSTROPHE])
            == Reader(Between, "", tokens + [Literal(APOSTROPHE, bytes)])
  {
    var r, within := Reader(m, "", tokens), Reader(Inside(APOSTROPHE), "", tokens);
    var filled := Reader(Inside(APOSTROPHE), bytes, tokens);
    var quote := [APOSTROPHE];
    OpenQuote(r);
    assert ReadText(within, Escape(bytes)) == filled by {
      ReadEscaped(within, bytes);
      assert "" + bytes == bytes;
    }
    ReadTwice(r, quote, Escape(bytes), within, filled);
    CloseQuote(filled);
    ReadTwice(r, quote + Escape(bytes), quote, filled, Reader(Between, "", tokens + [Literal(APOSTROPHE, bytes)]));
  }

  /** Inside a quoted argument no quote but its last one closes it. */
  lemma {:induction false} StaysOpen(r: Reader, s: string, k: nat)
    requires r.mode == Inside(APOSTROPHE) && k <= |Escape(s)|
    ensures !Code(ReadText(r, Escape(s)[..k]).mode)
  {
    if k == |Escape(s)| {
      assert Escape(s)[..k] == Escape(s);
      ReadEscaped(r, s);
    } else {
      var n := |s| - 1;
      var front := Escape(s[..n]);
      if k <= |front| {
        assert Escape(s)[..k] == front[..k];
        StaysOpen(r, s[..n], k);
      } else {
        assert Escape(s)[..k] == front + [BACKSLASH];
        ReadEscaped(r, s[..n]);
        assert (front + [BACKSLASH])[..|front|] == front;
      }
    }
  }

  // ---------------------------------------------------------------- the quotes calcParams sees

  /** calcParams' view of a reader's mode. */
  function Seen(mode: Mode): Quote {
    match mode
    case Inside(q) => In(q)
    case Escaped(q) => In(q)
    case _ => Outside
  }

  /** A quote that calcParams and the reader take differently: the literal's own, behind a backslash, or any inside a
      quoted name or a comment. */
  ghost predicate StrayQuoteAt(s: string, k: nat)
    requires k < |s|
  {
    var m := ReadText(START, s[..k]).mode;
    m == Escaped(s[k]) || (IsQuote(s[k]) && (m.Name? || m.Line? || m.Block? || m.Star?))
  }

  ghost predicate NoStrayQuote(s: string) { forall k :: 0 <= k < |s| ==> !StrayQuoteAt(s, k) }

  ghost predicate AgreeAt(s: string, k: nat)
    requires k <= |s|
  {
    CalcState(s[..k]) == Seen(ReadText(START, s[..k]).mode)
  }

  lemma AgreeStep(s: string, k: nat)
    requires k < |s| && AgreeAt(s, k)
    ensures AgreeAt(s, k + 1) <==> !StrayQuoteAt(s, k)
  {
    assert s[..k + 1][..k] == s[..k];
    ReaderQuotes(s[..k]);
  }

  /** Only quotes open literals. */
  lemma {:induction false} ReaderQuotes(s: string)
    ensures var m := ReadText(START, s).mode; m.Inside? || m.Escaped? ==> IsQuote(m.q)
  {
    if s != [] { ReaderQuotes(s[..|s| - 1]); }
  }

  /** calcParams sees the same quotes as the reader after every prefix exactly when no literal of the statement
      escapes its own quote and no quoted name or comment holds one. */
  lemma CalcAgreesIff(s: string)
    ensures (forall k :: 0 <= k <= |s| ==> AgreeAt(s, k)) <==> NoStrayQuote(s)
  {
    if NoStrayQuote(s) {
      for k := 0 to |s|
        invariant forall j :: 0 <= j <= k ==> AgreeAt(s, j)
      {
        AgreeStep(s, k);
      }
    } else {
      var k :| 0 <= k < |s| && StrayQuoteAt(s, k);
      assert AgreeAt(s, k) ==> !AgreeAt(s, k + 1) by { if AgreeAt(s, k) { AgreeStep(s, k); } }
    }
  }

  /** One more character. */
  lemma Extend(s: string, c: char)
    ensures CalcState(s + [c]) == CalcStep(CalcState(s), c)
    ensures Offsets(s + [c]) == Offsets(s) + if CalcState(s).Outside? && c == '?' then [|s|] else []
    ensures ReadText(START, s + [c]) == ReadChar(ReadText(START, s), c)
  {
    assert (s + [c])[..|s|] == s;
  }

  /** An accepted statement whose one placeholder, for calcParams, lies inside a literal. */
  lemma EscapedQuoteMiscounts()
    ensures var s := "'\\'?\\''";
            && CalcState(s) == Outside && Offsets(s) == [3]
            && ReadText(START, s) == Reader(Between, "", [Literal(APOSTROPHE, "'?'")])
  {
    var s1 := ['\''];
    var s2 := s1 + ['\\'];
    var s3 := s2 + ['\''];
    var s4 := s3 + ['?'];
    var s5 := s4 + ['\\'];
    var s6 := s5 + ['\''];
    Extend([], '\'');
    Extend(s1, '\\');
    Extend(s2, '\'');
    Extend(s3, '?');
    Extend(s4, '\\');
    Extend(s5, '\'');
    Extend(s6, '\'');
    assert [] + ['\''] == s1 && s6 + ['\''] == "'\\'?\\''";
    assert "" + ['\''] + ['?'] + ['\''] == "'?'";
  }

  /** A quoted name with a question mark: calcParams counts a placeholder, the reader sees none. */
  lemma NameMiscounts()
    ensures Offsets("`?`") == [1] && ReadText(START, "`?`") == Reader(Between, "", [Literal(BACKTICK, "?")])
  {
    var s1 := ['`'];
    var s2 := s1 + ['?'];
    assert [] + s1 == s1 && s2 + ['`'] == "`?`" && "" + ['?'] == "?";
    Extend([], '`');
    assert CalcState(s1) == Outside && Offsets(s1) == [] && ReadText(START, s1) == Reader(Name, "", []);
    Extend(s1, '?');
    assert CalcState(s2) == Outside && Offsets(s2) == [1] && ReadText(START, s2) == Reader(Name, "?", []);
    Extend(s2, '`');
  }

  /** A comment with an apostrophe: calcParams refuses the statement. */
  lemma CommentRefused()
    ensures CalcState("#'") == In(APOSTROPHE) && ReadText(START, "#'") == Reader(Line, "'", [])
  {
    var open, quote := ['#'], ['\''];
    assert CalcState(open) == Outside by { Extend([], '#'); assert [] + open == open; }
    Extend(open, '\'');
    assert open + quote == "#'" && "" + quote == "'";
    ReadSingle(START, '#');
    assert ReadText(START, open) == Reader(Line, "", []);
  }

  // ---------------------------------------------------------------- the whole statement

  /** The placeholders the reader sees. */
  function Marks(tokens: seq<Token>): nat {
    if tokens == [] then 0
    else Marks(tokens[..|tokens| - 1]) + if tokens[|tokens| - 1] == Char('?') then 1 else 0
  }

  /** The tokens with each placeholder replaced by its argument's tokens. */
  function Substituted(tokens: seq<Token>, args: seq<Arg>): seq<Token>
    requires |args| == Marks(tokens)
  {
    if tokens == [] then []
    else
      var n, k := |tokens| - 1, |args| - 1;
      if tokens[n] == Char('?') then Substituted(tokens[..n], args[..k]) + ArgTokens(args[k])
      else Substituted(tokens[..n], args) + [tokens[n]]
  }

  lemma SubstitutedStep(tokens: seq<Token>, t: Token, args: seq<Arg>)
    requires |args| == Marks(tokens + [t])
    ensures Marks(tokens + [t]) == Marks(tokens) + if t == Char('?') then 1 else 0
    ensures Substituted(tokens + [t], args) ==
            if t == Char('?') then Substituted(tokens, args[..|args| - 1]) + ArgTokens(args[|args| - 1])
            else Substituted(tokens, args) + [t]
  {
    assert (tokens + [t])[..|tokens|] == tokens;
  }

  ghost predicate AllSendable(args: seq<Arg>) { forall i :: 0 <= i < |args| ==> Sendable(args[i]) }

  /** The reader sees as many placeholders as calcParams. */
  ghost predicate Matches(s: string, args: seq<Arg>) {
    |args| == |Offsets(s)| == Marks(ReadText(START, s).tokens)
  }

  /** What reading the spliced statement should give: the template as read, with arguments for placeholders. */
  ghost predicate ReadsAs(s: string, args: seq<Arg>)
    requires Matches(s, args)
  {
    var r := ReadText(START, s);
    ReadText(START, Spliced(s, RenderedAll(args))) == r.(tokens := Substituted(r.tokens, args))
  }

  lemma MarksStep(tokens: seq<Token>, t: Token)
    ensures Marks(tokens + [t]) == Marks(tokens) + if t == Char('?') then 1 else 0
  {
    assert (tokens + [t])[..|tokens|] == tokens;
  }

  /** A question mark between the quoted parts: a placeholder to the reader. */
  ghost predicate MarkAt(s: string, i: nat)
    requires i < |s|
  {
    Code(ReadText(START, s[..i]).mode) && s[i] == '?'
  }

  /** calcParams finds exactly the placeholders. */
  ghost predicate SamePlaceholders(s: string) { forall i :: 0 <= i < |s| ==> (PlaceholderAt(s, i) <==> MarkAt(s, i)) }

  lemma SamePrefix(s: string, n: nat)
    requires n <= |s| && forall i :: 0 <= i < n ==> (PlaceholderAt(s, i) <==> MarkAt(s, i))
    ensures SamePlaceholders(s[..n])
  {
    forall i | 0 <= i < n ensures PlaceholderAt(s[..n], i) <==> MarkAt(s[..n], i) {
      assert s[..n][..i] == s[..i];
      assert PlaceholderAt(s, i) <==> MarkAt(s, i);
    }
  }

  /** Where quotes agree and no quoted name or comment holds a question mark, it does. */
  lemma SamePlaceholdersWhere(s: string)
    requires NoStrayQuote(s)
    requires forall i :: 0 <= i < |s| && s[i] == '?' ==>
               var m := ReadText(START, s[..i]).mode; !m.Name? && !m.Line? && !m.Block? && !m.Star?
    ensures SamePlaceholders(s)
  {
    CalcAgreesIff(s);
    forall i | 0 <= i < |s| ensures PlaceholderAt(s, i) <==> MarkAt(s, i) { assert AgreeAt(s, i); }
  }

  /** A character that is no placeholder does to the substituted tokens what it does to the template's. */
  lemma ReadCharSubstituted(r: Reader, c: char, args: seq<Arg>)
    requires |args| == Marks(r.tokens) && !(Code(r.mode) && c == '?')
    ensures var next := ReadChar(r, c);
            && Marks(next.tokens) == |args|
            && ReadChar(r.(tokens := Substituted(r.tokens, args)), c) == next.(tokens := Substituted(next.tokens, args))
  {
    var n := Next(r.mode, r.content, c);
    if n.emit != [] {
      NoMark(r.mode, r.content, c);
      MarksStep(r.tokens, n.emit[0]);
      SubstitutedStep(r.tokens, n.emit[0], args);
    }
  }

  lemma NoMark(m: Mode, content: string, c: char)
    requires !(Code(m) && c == '?')
    ensures var e := Next(m, content, c).emit; e == [] || (e == [e[0]] && e[0] != Char('?'))
  {
  }

  lemma SplicedCopy(s: string, c: char, texts: seq<string>)
    requires |texts| == |Offsets(s)| && !(CalcState(s).Outside? && c == '?')
    ensures |Offsets(s + [c])| == |texts| && Spliced(s + [c], texts) == Spliced(s, texts) + [c]
  {
    assert (s + [c])[..|s|] == s;
  }

  lemma SplicedArgument(s: string, texts: seq<string>, text: string)
    requires |texts| == |Offsets(s)| && CalcState(s).Outside?
    ensures |Offsets(s + ['?'])| == |texts| + 1 && Spliced(s + ['?'], texts + [text]) == Spliced(s, texts) + text
  {
    assert (s + ['?'])[..|s|] == s && (texts + [text])[..|texts|] == texts;
  }

  /** Reading the next template character. */
  lemma ReadsStep(s: string, c: char, args: seq<Arg>)
    requires Matches(s, args) && ReadsAs(s, args)
    requires !(Code(ReadText(START, s).mode) && c == '?') && !(CalcState(s).Outside? && c == '?')
    ensures Matches(s + [c], args) && ReadsAs(s + [c], args)
  {
    var texts := RenderedAll(args);
    SplicedCopy(s, c, texts);
    ReadOne(START, s, c);
    ReadOne(START, Spliced(s, texts), c);
    ReadCharSubstituted(ReadText(START, s), c, args);
  }

  lemma RenderedLast(args: seq<Arg>, a: Arg)
    ensures RenderedAll(args + [a]) == RenderedAll(args) + [Rendered(a)]
  {
  }

  lemma ReadArgument(out: string, m: Mode, tokens: seq<Token>, a: Arg)
    requires ReadText(START, out) == Reader(m, "", tokens) && Code(m) && Sendable(a)
    ensures ReadText(START, out + Rendered(a)) == Reader(Between, "", tokens + ArgTokens(a))
  {
    ReadConcat(START, out, Rendered(a));
    ReadRendered(m, tokens, a);
  }

  /** Reading an argument in the place of a placeholder. */
  lemma ReadsArgument(s: string, args: seq<Arg>, a: Arg)
    requires Matches(s, args) && ReadsAs(s, args) && Sendable(a)
    requires CalcState(s) == Outside && Code(ReadText(START, s).mode) && ReadText(START, s).content == ""
    ensures Matches(s + ['?'], args + [a]) && ReadsAs(s + ['?'], args + [a])
  {
    var r, more := ReadText(START, s), args + [a];
    assert ReadText(START, s + ['?']) == Reader(Between, "", r.tokens + [Char('?')]) by {
      ReadOne(START, s, '?');
      ReadMark(r);
    }
    MarksStep(r.tokens, Char('?'));
    RenderedLast(args, a);
    SplicedArgument(s, RenderedAll(args), Rendered(a));
    assert Substituted(r.tokens + [Char('?')], more) == Substituted(r.tokens, args) + ArgTokens(a) by {
      SubstitutedStep(r.tokens, Char('?'), more);
      assert more[..|args|] == args;
    }
    ReadArgument(Spliced(s, RenderedAll(args)), r.mode, Substituted(r.tokens, args), a);
  }

  lemma {:induction false} CodeHasNoContent(s: string)
    ensures Code(ReadText(START, s).mode) ==> ReadText(START, s).content == ""
  {
    if s != [] { CodeHasNoContent(s[..|s| - 1]); }
  }

  /** Splicing keeps the meaning: the spliced statement reads as the template does, with every placeholder read as its
      argument and every other token unchanged. */
  lemma {:induction false} SpliceKeepsMeaning(s: string, args: seq<Arg>)
    requires SamePlaceholders(s) && |args| == |Offsets(s)| && AllSendable(args)
    ensures Matches(s, args) && ReadsAs(s, args)
  {
    if s != [] {
      var n := |s| - 1;
      var front, c := s[..n], s[n];
      assert s == front + [c];
      SamePrefix(s, n);
      assert PlaceholderAt(s, n) <==> MarkAt(s, n);
      assert |Offsets(s)| == |Offsets(front)| + if PlaceholderAt(s, n) then 1 else 0;
      if CalcState(front).Outside? && c == '?' {
        var k := |args| - 1;
        assert args == args[..k] + [args[k]];
        SpliceKeepsMeaning(front, args[..k]);
        CodeHasNoContent(front);
        ReadsArgument(front, args[..k], args[k]);
      } else {
        SpliceKeepsMeaning(front, args);
        ReadsStep(front, c, args);
      }
    }
  }

  // ---------------------------------------------------------------- and only then

  ghost predicate Begins<T>(s: seq<T>, front: seq<T>) { |front| <= |s| && s[..|front|] == front }

  lemma BeginsMore<T>(s: seq<T>, front: seq<T>, more: seq<T>)
    requires Begins(s, front)
    ensures Begins(s + more, front)
  {
    assert (s + more)[..|front|] == s[..|front|];
  }

  lemma {:induction false} TokensGrow(r: Reader, u: string)
    ensures Begins(ReadText(r, u).tokens, r.tokens)
  {
    if u != [] {
      var before := ReadText(r, u[..|u| - 1]);
      TokensGrow(r, u[..|u| - 1]);
      BeginsMore(before.tokens, r.tokens, Next(before.mode, before.content, u[|u| - 1]).emit);
    }
  }

  /** The quoted part or comment that follows the first `n` tokens, finished or not, begins with `c`. */
  ghost predicate Carries(r: Reader, n: nat, c: string) {
    if |r.tokens| <= n then |r.tokens| == n && !Code(r.mode) && Begins(r.content, c)
    else !r.tokens[n].Char? && Begins(r.tokens[n].content, c)
  }

  lemma CarriesStep(r: Reader, n: nat, c: string, x: char)
    requires Carries(r, n, c)
    ensures Carries(ReadChar(r, x), n, c)
  {
    var next := Next(r.mode, r.content, x);
    if |r.tokens| == n { BeginsMore(r.content, c, [x]); }
    assert next.emit == [] || next.emit == [next.emit[0]];
  }

  lemma {:induction false} ContentGrows(r: Reader, u: string)
    requires !Code(r.mode)
    ensures Carries(ReadText(r, u), |r.tokens|, r.content)
  {
    if u == [] {
      assert Begins(r.content, r.content);
    } else {
      ContentGrows(r, u[..|u| - 1]);
      CarriesStep(ReadText(r, u[..|u| - 1]), |r.tokens|, r.content, u[|u| - 1]);
    }
  }

  lemma {:induction false} SubstitutedPrefix(a: seq<Token>, b: seq<Token>, args: seq<Arg>)
    requires Begins(b, a) && |args| == Marks(b)
    ensures Marks(a) <= |args| && Begins(Substituted(b, args), Substituted(a, args[..Marks(a)]))
    decreases |b|
  {
    if |a| == |b| {
      assert a == b && args[..|args|] == args;
    } else {
      var n := |b| - 1;
      var m := Marks(b[..n]);
      assert b[..n][..|a|] == b[..|a|];
      SubstitutedPrefix(a, b[..n], args[..m]);
      assert args[..m][..Marks(a)] == args[..Marks(a)];
      var front := Substituted(a, args[..Marks(a)]);
      if b[n] == Char('?') {
        BeginsMore(Substituted(b[..n], args[..m]), front, ArgTokens(args[m]));
      } else {
        assert args[..m] == args;
        BeginsMore(Substituted(b[..n], args), front, [b[n]]);
      }
    }
  }

  lemma {:induction false} SplicedPrefix(s: string, texts: seq<string>, p: nat)
    requires p <= |s| && |texts| == |Offsets(s)|
    ensures |Offsets(s[..p])| <= |texts| && Begins(Spliced(s, texts), Spliced(s[..p], texts[..|Offsets(s[..p])|]))
  {
    OffsetsPrefix(s, p);
    var k := |Offsets(s[..p])|;
    if p == |s| {
      assert s[..p] == s && texts[..k] == texts;
    } else {
      var n := |s| - 1;
      var m := |Offsets(s[..n])|;
      assert s[..n][..p] == s[..p];
      OffsetsPrefix(s[..n], p);
      assert texts[..m][..k] == texts[..k];
      SplicedPrefix(s[..n], texts[..m], p);
      var front := Spliced(s[..p], texts[..k]);
      if PlaceholderAt(s, n) {
        BeginsMore(Spliced(s[..n], texts[..m]), front, texts[m]);
      } else {
        assert texts[..m] == texts;
        BeginsMore(Spliced(s[..n], texts), front, [s[n]]);
      }
    }
  }

  ghost predicate KeepsMeaning(s: string) {
    forall args :: |args| == |Offsets(s)| && AllSendable(args) ==> Matches(s, args) && ReadsAs(s, args)
  }

  lemma RepeatSendable(a: Arg, n: nat)
    requires Sendable(a)
    ensures AllSendable(Repeat(a, n))
  {
  }

  /** What is read at `i` stays in what is read at the end. */
  lemma ReadOn(s: string, texts: seq<string>, p: nat)
    requires p <= |s| && |texts| == |Offsets(s)|
    ensures |Offsets(s[..p])| <= |texts|
    ensures var front := Spliced(s[..p], texts[..|Offsets(s[..p])|]);
            && Begins(Spliced(s, texts), front)
            && ReadText(START, Spliced(s, texts)) == ReadText(ReadText(START, front), Spliced(s, texts)[|front|..])
    ensures ReadText(START, s) == ReadText(ReadText(START, s[..p]), s[p..])
  {
    SplicedPrefix(s, texts, p);
    var front, all := Spliced(s[..p], texts[..|Offsets(s[..p])|]), Spliced(s, texts);
    assert all == front + all[|front|..] && s == s[..p] + s[p..];
    ReadConcat(START, front, all[|front|..]);
    ReadConcat(START, s[..p], s[p..]);
  }

  /** A reader does not carry the 1 and the question mark in the same place. */
  lemma CarriesEither(r: Reader, n: nat, c: string)
    ensures !(Carries(r, n, c + ['1']) && Carries(r, n, c + ['?']))
  {
    assert (c + ['1'])[|c|] == '1' && (c + ['?'])[|c|] == '?';
    assert forall content: string :: Begins(content, c + ['1']) ==> content[|c|] == (c + ['1'])[|c|];
  }

  /** What the template carries, the substituted tokens carry too. */
  lemma CarriesSubstituted(r: Reader, tokens: seq<Token>, args: seq<Arg>, c: string)
    requires Begins(r.tokens, tokens) && |args| == Marks(r.tokens) && Carries(r, |tokens|, c)
    ensures Marks(tokens) <= |args|
    ensures Carries(r.(tokens := Substituted(r.tokens, args)), |Substituted(tokens, args[..Marks(tokens)])|, c)
  {
    SubstitutedPrefix(tokens, r.tokens, args);
    if |r.tokens| == |tokens| {
      assert r.tokens == tokens && args[..Marks(tokens)] == args;
    } else {
      var t := r.tokens[|tokens|];
      var more := tokens + [t];
      assert r.tokens[..|more|] == more;
      MarksStep(tokens, t);
      SubstitutedPrefix(more, r.tokens, args);
      SubstitutedStep(tokens, t, args[..Marks(more)]);
      var sub := Substituted(tokens, args[..Marks(tokens)]);
      assert Substituted(more, args[..Marks(more)]) == sub + [t];
      AtEnd(Substituted(r.tokens, args), sub, t);
    }
  }

  lemma AtEnd<T>(s: seq<T>, front: seq<T>, t: T)
    requires Begins(s, front + [t])
    ensures Begins(s, front) && |front| < |s| && s[|front|] == t
  {
    var more := front + [t];
    assert s[..|front| + 1] == more;
    assert s[..|front|] == more[..|front|] == front && s[|front|] == more[|front|];
  }

  /** A quoted part or comment at `i`, with the 1 for a placeholder counted there. */
  lemma CarriesArgument(s: string, texts: seq<string>, i: nat)
    requires i < |s| && PlaceholderAt(s, i) && |texts| == |Offsets(s)|
    requires forall j :: 0 <= j < |texts| ==> texts[j] == "1"
    ensures |Offsets(s[..i])| <= |texts|
    ensures var out := ReadText(START, Spliced(s[..i], texts[..|Offsets(s[..i])|]));
            !Code(out.mode) && (out.mode.Inside? ==> IsQuote(out.mode.q)) ==>
              Carries(ReadText(START, Spliced(s, texts)), |out.tokens|, out.content + ['1'])
  {
    SplicedOne(s, texts, i);
    var k := |Offsets(s[..i])|;
    var front := Spliced(s[..i], texts[..k]);
    var out := ReadText(START, front);
    if !Code(out.mode) && (out.mode.Inside? ==> IsQuote(out.mode.q)) {
      ReadOn(s, texts, i + 1);
      ReadOne(START, front, '1');
      ReadInside(out, '1');
      ContentGrows(ReadChar(out, '1'), Spliced(s, texts)[|front + ['1']|..]);
    }
  }

  /** The same in the template, with its question mark. */
  lemma CarriesMark(s: string, i: nat)
    requires i < |s| && s[i] == '?' && !Code(ReadText(START, s[..i]).mode)
    ensures var r, all := ReadText(START, s[..i]), ReadText(START, s);
            Begins(all.tokens, r.tokens) && Carries(all, |r.tokens|, r.content + ['?'])
  {
    var r, mark := ReadText(START, s[..i]), ReadText(START, s[..i + 1]);
    assert !Code(mark.mode) && mark.content == r.content + ['?'] && mark.tokens == r.tokens by {
      assert s[..i] + ['?'] == s[..i + 1];
      ReadOne(START, s[..i], '?');
      ReaderQuotes(s[..i]);
      ReadInside(r, '?');
    }
    assert s == s[..i + 1] + s[i + 1..];
    ReadConcat(START, s[..i + 1], s[i + 1..]);
    ContentGrows(mark, s[i + 1..]);
    TokensGrow(mark, s[i + 1..]);
  }

  /** A counted placeholder in a quoted part or comment: arguments 1 change what it holds. */
  lemma MarkInside(s: string, i: nat)
    requires i < |s| && SamePlaceholders(s[..i]) && PlaceholderAt(s, i) && !MarkAt(s, i)
    requires |Offsets(s)| == Marks(ReadText(START, s).tokens)
    ensures !KeepsMeaning(s)
  {
    var args := Repeat(Plain("1"), |Offsets(s)|);
    var texts := RenderedAll(args);
    RepeatSendable(Plain("1"), |Offsets(s)|);
    OnesRendered(args);
    OffsetsPrefix(s, i);
    var k := |Offsets(s[..i])|;
    var r := ReadText(START, s[..i]);
    ReaderQuotes(s[..i]);
    SpliceKeepsMeaning(s[..i], args[..k]);
    assert RenderedAll(args[..k]) == texts[..k];
    CarriesArgument(s, texts, i);
    CarriesMark(s, i);
    CarriesSubstituted(ReadText(START, s), r.tokens, args, r.content + ['?']);
    CarriesEither(ReadText(START, Spliced(s, texts)), |Substituted(r.tokens, args[..k])|, r.content);
  }

  lemma OnesRendered(args: seq<Arg>)
    requires forall j :: 0 <= j < |args| ==> args[j] == Plain("1")
    ensures forall j :: 0 <= j < |args| ==> RenderedAll(args)[j] == "1"
  {
    var one := "1";
    assert Escape(one) == one by { EscapePrintable(one); }
    assert Rendered(Plain(one)) == one;
  }

  /** The argument 1 in the place of a placeholder. */
  lemma SplicedOne(s: string, texts: seq<string>, i: nat)
    requires i < |s| && PlaceholderAt(s, i) && |texts| == |Offsets(s)|
    requires forall j :: 0 <= j < |texts| ==> texts[j] == "1"
    ensures |Offsets(s[..i + 1])| == |Offsets(s[..i])| + 1 <= |texts|
    ensures Spliced(s[..i + 1], texts[..|Offsets(s[..i])| + 1]) == Spliced(s[..i], texts[..|Offsets(s[..i])|]) + ['1']
  {
    OffsetsPrefix(s, i + 1);
    var k := |Offsets(s[..i])|;
    assert s[..i + 1] == s[..i] + ['?'];
    assert s[..i + 1][..i] == s[..i];
    assert texts[..k + 1] == texts[..k] + ["1"];
    SplicedArgument(s[..i], texts[..k], "1");
  }

  lemma GrowsFrom(r: Reader, t: Token, next: Reader, u: string)
    requires next.tokens == r.tokens + [t]
    ensures var all := ReadText(next, u).tokens; Begins(all, r.tokens) && |r.tokens| < |all| && all[|r.tokens|] == t
  {
    TokensGrow(next, u);
    AtEnd(ReadText(next, u).tokens, r.tokens, t);
  }

  /** A question mark that is copied stays a token. */
  lemma CopiedMark(s: string, texts: seq<string>, i: nat)
    requires i < |s| && s[i] == '?' && !PlaceholderAt(s, i) && |texts| == |Offsets(s)|
    ensures |Offsets(s[..i])| <= |texts|
    ensures var out := ReadText(START, Spliced(s[..i], texts[..|Offsets(s[..i])|]));
            var all := ReadText(START, Spliced(s, texts)).tokens;
            Code(out.mode) ==> |out.tokens| < |all| && all[|out.tokens|] == Char('?')
  {
    OffsetsPrefix(s, i);
    var k := |Offsets(s[..i])|;
    var front := Spliced(s[..i], texts[..k]);
    var out, next := ReadText(START, front), ReadText(START, front + ['?']);
    assert s[..i + 1] == s[..i] + ['?'];
    SplicedCopy(s[..i], '?', texts[..k]);
    ReadOn(s, texts, i + 1);
    if Code(out.mode) {
      assert next.tokens == out.tokens + [Char('?')] by {
        ReadOne(START, front, '?');
        ReadMark(out);
      }
      GrowsFrom(out, Char('?'), next, Spliced(s, texts)[|front + ['?']|..]);
    }
  }

  lemma MarkToken(s: string, i: nat)
    requires i < |s| && MarkAt(s, i)
    ensures var tokens, all := ReadText(START, s[..i]).tokens, ReadText(START, s).tokens;
            Begins(all, tokens) && |tokens| < |all| && all[|tokens|] == Char('?')
  {
    var r, next := ReadText(START, s[..i]), ReadText(START, s[..i + 1]);
    assert next.tokens == r.tokens + [Char('?')] by {
      assert s[..i] + ['?'] == s[..i + 1];
      ReadOne(START, s[..i], '?');
      ReadMark(r);
    }
    assert s == s[..i + 1] + s[i + 1..];
    ReadConcat(START, s[..i + 1], s[i + 1..]);
    GrowsFrom(r, Char('?'), next, s[i + 1..]);
  }

  lemma MarkedLast(more: seq<Token>, args: seq<Arg>)
    requires more != [] && more[|more| - 1] == Char('?') && |args| == Marks(more)
    ensures var n, k := |more| - 1, |args| - 1;
            && k >= 0 && Marks(more[..n]) == k
            && (args[k] == Bytes("") ==>
                  Substituted(more, args) == Substituted(more[..n], args[..k]) + [Literal(APOSTROPHE, "")])
  {
  }

  /** In the template an empty text takes its place. */
  lemma ReplacedMark(tokens: seq<Token>, all: seq<Token>, args: seq<Arg>)
    requires Begins(all, tokens) && |tokens| < |all| && all[|tokens|] == Char('?') && |args| == Marks(all)
    requires forall j :: 0 <= j < |args| ==> args[j] == Bytes("")
    ensures Marks(tokens) <= |args|
    ensures var sub, whole := Substituted(tokens, args[..Marks(tokens)]), Substituted(all, args);
            |sub| < |whole| && whole[|sub|] == Literal(APOSTROPHE, "")
  {
    var more := all[..|tokens| + 1];
    assert more[..|tokens|] == tokens by { assert all[..|tokens|] == tokens; }
    SubstitutedPrefix(more, all, args);
    var some := args[..Marks(more)];
    MarkedLast(more, some);
    assert some[..|some| - 1] == args[..Marks(tokens)];
    AtEnd(Substituted(all, args), Substituted(tokens, args[..Marks(tokens)]), Literal(APOSTROPHE, ""));
  }

  /** A placeholder calcParams does not count: with empty texts for arguments it stays a question mark. */
  lemma MarkMissed(s: string, i: nat)
    requires i < |s| && SamePlaceholders(s[..i]) && !PlaceholderAt(s, i) && MarkAt(s, i)
    requires |Offsets(s)| == Marks(ReadText(START, s).tokens)
    ensures !KeepsMeaning(s)
  {
    var a := Bytes("");
    var args := Repeat(a, |Offsets(s)|);
    var texts := RenderedAll(args);
    RepeatSendable(a, |Offsets(s)|);
    OffsetsPrefix(s, i);
    var k := |Offsets(s[..i])|;
    var r := ReadText(START, s[..i]);
    SpliceKeepsMeaning(s[..i], args[..k]);
    assert RenderedAll(args[..k]) == texts[..k];
    CopiedMark(s, texts, i);
    MarkToken(s, i);
    ReplacedMark(r.tokens, ReadText(START, s).tokens, args);
  }

  lemma {:induction false} FirstDifference(s: string, n: nat) returns (i: nat)
    requires n < |s| && (PlaceholderAt(s, n) <==> !MarkAt(s, n))
    ensures i <= n && (PlaceholderAt(s, i) <==> !MarkAt(s, i))
    ensures forall j :: 0 <= j < i ==> (PlaceholderAt(s, j) <==> MarkAt(s, j))
    decreases n
  {
    if j :| 0 <= j < n && (PlaceholderAt(s, j) <==> !MarkAt(s, j)) { i := FirstDifference(s, j); } else { i := n; }
  }

  /** Splicing keeps the meaning, whatever the arguments, exactly when calcParams finds exactly the placeholders. */
  lemma SpliceKeepsMeaningIff(s: string)
    ensures KeepsMeaning(s) <==> SamePlaceholders(s)
  {
    if SamePlaceholders(s) {
      forall args | |args| == |Offsets(s)| && AllSendable(args) ensures Matches(s, args) && ReadsAs(s, args) {
        SpliceKeepsMeaning(s, args);
      }
    } else if |Offsets(s)| != Marks(ReadText(START, s).tokens) {
      RepeatSendable(Null, |Offsets(s)|);
      assert !Matches(s, Repeat(Null, |Offsets(s)|));
    } else {
      var n :| 0 <= n < |s| && (PlaceholderAt(s, n) <==> !MarkAt(s, n));
      var i := FirstDifference(s, n);
      SamePrefix(s, i);
      if PlaceholderAt(s, i) { MarkInside(s, i); } else { MarkMissed(s, i); }
    }
  }
}
