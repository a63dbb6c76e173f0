/** Prepared statements: finding the placeholders and splicing the arguments into the text
    (`proxy/server/executor_stmt.go`). */
module Splice {
  import opened Options

  const BACKSLASH: char := '\\'
  const APOSTROPHE: char := '\''
  const NULL_TEXT: string := "NULL"

  predicate IsQuote(c: char) { c == '\'' || c == '"' }

  // ---------------------------------------------------------------- placeholders

  /** calcParams' view of the text so far: outside any quotes, or inside the ones opened by `q`. */
  datatype Quote = Outside | In(q: char)

  /** One character of calcParams: a backslash is skipped, and does not protect the next character. */
  function CalcStep(st: Quote, c: char): Quote {
    if c == BACKSLASH || !IsQuote(c) then st
    else if st.Outside? then In(c)
    else if st.q == c then Outside
    else st
  }

  function CalcState(s: string): Quote {
    if s == [] then Outside else CalcStep(CalcState(s[..|s| - 1]), s[|s| - 1])
  }

  predicate PlaceholderAt(s: string, i: nat)
    requires i < |s|
  {
    CalcState(s[..i]).Outside? && s[i] == '?'
  }

  function Offsets(s: string): seq<nat> {
    if s == [] then []
    else
      var n := |s| - 1;
      Offsets(s[..n]) + if CalcState(s[..n]).Outside? && s[n] == '?' then [n] else []
  }

  /** calcParams. */
  method CalcParams(sql: string) returns (r: Option<seq<nat>>)
    ensures r == if CalcState(sql).Outside? then Some(Offsets(sql)) else None
  {
    var quoteChar := Outside;
    var offsets: seq<nat> := [];
    for i := 0 to |sql|
      invariant quoteChar == CalcState(sql[..i]) && offsets == Offsets(sql[..i])
    {
      var elem := sql[i];
      assert sql[..i + 1][..i] == sql[..i];
      if elem == BACKSLASH { continue; }
      if IsQuote(elem) {
        if quoteChar == Outside {
          quoteChar := In(elem);
        } else if quoteChar == In(elem) {
          quoteChar := Outside;
        }
      } else if quoteChar == Outside && elem == '?' {
        offsets := offsets + [i];
      }
    }
    assert sql[..|sql|] == sql;
    if quoteChar != Outside { return None; }
    return Some(offsets);
  }

  /** The offsets are the placeholders, each once and in order. */
  lemma {:induction false} OffsetsExact(s: string)
    ensures forall k :: 0 <= k < |Offsets(s)| ==> Offsets(s)[k] < |s| && PlaceholderAt(s, Offsets(s)[k])
    ensures forall j, k :: 0 <= j < k < |Offsets(s)| ==> Offsets(s)[j] < Offsets(s)[k]
    ensures forall i :: 0 <= i < |s| && PlaceholderAt(s, i) ==> i in Offsets(s)
  {
    if s != [] {
      var n := |s| - 1;
      OffsetsExact(s[..n]);
      assert forall i :: 0 <= i <= n ==> s[..n][..i] == s[..i];
      assert forall i :: 0 <= i < n ==> (PlaceholderAt(s[..n], i) <==> PlaceholderAt(s, i));
    }
  }

  // ---------------------------------------------------------------- arguments

  /** An argument: NULL, bytes, or a value printed as it is. */
  datatype Arg = Null | Bytes(bytes: string) | Plain(text: string)

  function EscapeChar(c: char): string { if c == BACKSLASH || c == APOSTROPHE then [BACKSLASH, c] else [c] }

  function Escape(s: string): string {
    if s == [] then [] else Escape(s[..|s| - 1]) + EscapeChar(s[|s| - 1])
  }

  /** escapeSQL. */
  method EscapeSQL(sql: string) returns (t: string)
    ensures t == Escape(sql)
  {
    t := [];
    for i := 0 to |sql|
      invariant t == Escape(sql[..i])
    {
      assert sql[..i + 1][..i] == sql[..i];
      if sql[i] == BACKSLASH || sql[i] == APOSTROPHE { t := t + [BACKSLASH]; }
      t := t + [sql[i]];
    }
    assert sql[..|sql|] == sql;
  }

  /** ItoString: whether to quote, and the text. */
  function Text(a: Arg): (bool, string) {
    match a
    case Null => (false, NULL_TEXT)
    case Bytes(bytes) => (true, bytes)
    case Plain(text) => (false, text)
  }

  function Rendered(a: Arg): string {
    var text := Escape(Text(a).1);
    if Text(a).0 then [APOSTROPHE] + text + [APOSTROPHE] else text
  }

  function RenderedAll(args: seq<Arg>): seq<string> {
    seq(|args|, i requires 0 <= i < |args| => Rendered(args[i]))
  }

  /** The template read left to right, each placeholder replaced by its text. */
  function Spliced(s: string, texts: seq<string>): string
    requires |texts| == |Offsets(s)|
  {
    if s == [] then []
    else
      var n, k := |s| - 1, |texts| - 1;
      if PlaceholderAt(s, n) then Spliced(s[..n], texts[..k]) + texts[k]
      else Spliced(s[..n], texts) + [s[n]]
  }

  // ---------------------------------------------------------------- the running offset

  /** The placeholders of a prefix are the first ones, and the others come after it. */
  lemma {:induction false} OffsetsPrefix(s: string, p: nat)
    requires p <= |s|
    ensures Offsets(s[..p]) <= Offsets(s)
    ensures forall k :: |Offsets(s[..p])| <= k < |Offsets(s)| ==> p <= Offsets(s)[k]
  {
    if p == |s| {
      assert s[..p] == s;
    } else {
      var n := |s| - 1;
      OffsetsPrefix(s[..n], p);
      assert s[..n][..p] == s[..p];
    }
  }

  lemma SplicedChar(s: string, n: nat, texts: seq<string>)
    requires n < |s| && |texts| == |Offsets(s[..n])| == |Offsets(s[..n + 1])|
    ensures Spliced(s[..n + 1], texts) == Spliced(s[..n], texts) + [s[n]]
  {
    assert s[..n + 1][..n] == s[..n];
  }

  lemma CountGrows(s: string, p: nat, n: nat)
    requires p <= n <= |s|
    ensures |Offsets(s[..p])| <= |Offsets(s[..n])|
  {
    OffsetsPrefix(s[..n], p);
    assert s[..n][..p] == s[..p];
  }

  lemma AppendChar(x: string, s: string, p: nat, n: nat)
    requires p <= n < |s|
    ensures x + s[p..n] + [s[n]] == x + s[p..n + 1]
  {
  }

  /** Text without placeholders is copied. */
  lemma {:induction false} SplicedGap(s: string, texts: seq<string>, p: nat, pos: nat)
    requires p <= pos <= |s| && |texts| == |Offsets(s[..p])| == |Offsets(s[..pos])|
    ensures Spliced(s[..pos], texts) == Spliced(s[..p], texts) + s[p..pos]
    decreases pos
  {
    if p == pos {
      assert s[p..pos] == [];
    } else {
      var n := pos - 1;
      CountGrows(s, p, n);
      CountGrows(s, n, pos);
      SplicedGap(s, texts, p, n);
      SplicedChar(s, n, texts);
      AppendChar(Spliced(s[..p], texts), s, p, n);
    }
  }

  /** As many placeholders stand before the i-th one. */
  lemma CountAt(s: string, i: nat)
    requires i < |Offsets(s)|
    ensures Offsets(s)[i] < |s| && |Offsets(s[..Offsets(s)[i]])| == i
  {
    OffsetsExact(s);
    var pos := Offsets(s)[i];
    OffsetsPrefix(s, pos);
    OffsetsBelow(s[..pos]);
    var m := |Offsets(s[..pos])|;
    assert m < |Offsets(s)| ==> pos <= Offsets(s)[m];
    assert forall k :: 0 <= k < m ==> Offsets(s)[k] == Offsets(s[..pos])[k];
  }

  lemma OffsetsBelow(s: string)
    ensures forall k :: 0 <= k < |Offsets(s)| ==> Offsets(s)[k] < |s|
  {
    OffsetsExact(s);
  }

  /** The placeholder after `p` comes no earlier, and no other stands between. */
  lemma NextOffset(s: string, p: nat, i: nat)
    requires p <= |s| && i == |Offsets(s[..p])| < |Offsets(s)|
    ensures var pos := Offsets(s)[i];
            p <= pos < |s| && PlaceholderAt(s, pos) && |Offsets(s[..pos])| == i && |Offsets(s[..pos + 1])| == i + 1
  {
    OffsetsPrefix(s, p);
    CountAt(s, i);
    var pos := Offsets(s)[i];
    assert PlaceholderAt(s, pos) by { OffsetsExact(s); }
    assert s[..pos + 1][..pos] == s[..pos];
  }

  /** Replacing the next placeholder in the text spliced so far. */
  lemma SpliceStep(s: string, texts: seq<string>, p: nat, i: nat)
    requires p <= |s| && i == |Offsets(s[..p])| < |Offsets(s)| == |texts|
    ensures var pos := Offsets(s)[i];
            && p <= pos < |s| && |Offsets(s[..pos + 1])| == i + 1
            && Spliced(s[..pos + 1], texts[..i + 1]) == Spliced(s[..p], texts[..i]) + s[p..pos] + texts[i]
  {
    NextOffset(s, p, i);
    var pos := Offsets(s)[i];
    SplicedGap(s, texts[..i], p, pos);
    assert s[..pos + 1][..pos] == s[..pos] && texts[..i + 1][..i] == texts[..i];
  }

  /** The same with the text behind the placeholder, whose place has moved by the text added before it. */
  lemma SpliceInPlace(s: string, p: nat, pos: nat, front: string, text: string)
    requires p <= pos < |s|
    ensures var sql, at := front + s[p..], |front| + pos - p;
            sql[..at] + text + sql[at + 1..] == front + s[p..pos] + text + s[pos + 1..]
  {
    var sql, at := front + s[p..], |front| + pos - p;
    assert s[p..] == s[p..pos] + s[pos..] && sql[..at] == front + s[p..pos] && sql[at + 1..] == s[pos + 1..];
  }

  /** One round of GetRewriteSQL's loop: the new text, and by how much it grew. */
  method Substitute(sql: string, at: nat, arg: Arg, ghost rendered: string) returns (r: string, growth: int)
    requires at < |sql| && rendered == Rendered(arg)
    ensures r == sql[..at] + rendered + sql[at + 1..] && growth == |rendered| - 1
  {
    var (quote, text) := Text(arg);
    var tmp := EscapeSQL(text);
    if quote {
      r := sql[..at] + [APOSTROPHE] + tmp + [APOSTROPHE] + sql[at + 1..];
      growth := |tmp| - 1 + 2;
    } else {
      r := sql[..at] + tmp + sql[at + 1..];
      growth := |tmp| - 1;
    }
  }

  /** GetRewriteSQL's text after `i` rounds: spliced up to `p`, the template's own text from there on. */
  ghost predicate PartSpliced(template: string, texts: seq<string>, i: nat, p: nat, sql: string, offset: int) {
    && p <= |template| && |texts| == |Offsets(template)| && i == |Offsets(template[..p])| <= |texts|
    && var front := Spliced(template[..p], texts[..i]);
       sql == front + template[p..] && offset == |front| - p
  }

  lemma PartSplicedStep(template: string, texts: seq<string>, i: nat, p: nat, sql: string, offset: int)
    requires i < |Offsets(template)| && PartSpliced(template, texts, i, p, sql, offset)
    ensures var pos := Offsets(template)[i];
            && 0 <= pos + offset < |sql|
            && PartSpliced(template, texts, i + 1, pos + 1, sql[..pos + offset] + texts[i] + sql[pos + offset + 1..],
                           offset + |texts[i]| - 1)
  {
    SpliceStep(template, texts, p, i);
    var pos := Offsets(template)[i];
    SpliceInPlace(template, p, pos, Spliced(template[..p], texts[..i]), texts[i]);
  }

  /** The text and the running offset after `i` rounds. */
  ghost function Rounds(template: string, offsets: seq<nat>, texts: seq<string>, i: nat): (string, int)
    requires i <= |texts| == |offsets|
    decreases i
  {
    if i == 0 then (template, 0)
    else
      var (sql, offset) := Rounds(template, offsets, texts, i - 1);
      var at := offsets[i - 1] + offset;
      if 0 <= at < |sql| then (sql[..at] + texts[i - 1] + sql[at + 1..], offset + |texts[i - 1]| - 1) else (sql, offset)
  }

  lemma RoundsStep(template: string, offsets: seq<nat>, texts: seq<string>, i: nat, sql: string, offset: int)
    requires i < |texts| == |offsets| && Rounds(template, offsets, texts, i) == (sql, offset)
    requires 0 <= offsets[i] + offset < |sql|
    ensures var at := offsets[i] + offset;
            Rounds(template, offsets, texts, i + 1) == (sql[..at] + texts[i] + sql[at + 1..], offset + |texts[i]| - 1)
  {
  }

  lemma {:induction false} RoundsSplice(template: string, offsets: seq<nat>, texts: seq<string>, i: nat)
    returns (p: nat, sql: string, offset: int)
    requires i <= |texts| == |offsets| && offsets == Offsets(template)
    ensures Rounds(template, offsets, texts, i) == (sql, offset) && PartSpliced(template, texts, i, p, sql, offset)
    decreases i
  {
    if i == 0 {
      p, sql, offset := 0, template, 0;
      PartSplicedStarts(template, texts);
    } else {
      var p0, sql0, offset0 := RoundsSplice(template, offsets, texts, i - 1);
      p, sql, offset := NextRound(template, offsets, texts, i - 1, p0, sql0, offset0);
    }
  }

  lemma NextRound(template: string, offsets: seq<nat>, texts: seq<string>, i: nat, p0: nat, sql0: string, offset0: int)
    returns (p: nat, sql: string, offset: int)
    requires i < |texts| == |offsets| && offsets == Offsets(template)
    requires Rounds(template, offsets, texts, i) == (sql0, offset0)
    requires PartSpliced(template, texts, i, p0, sql0, offset0)
    ensures Rounds(template, offsets, texts, i + 1) == (sql, offset)
    ensures PartSpliced(template, texts, i + 1, p, sql, offset)
  {
    var at := offsets[i] + offset0;
    PartSplicedStep(template, texts, i, p0, sql0, offset0);
    RoundsStep(template, offsets, texts, i, sql0, offset0);
    p, sql, offset := offsets[i] + 1, sql0[..at] + texts[i] + sql0[at + 1..], offset0 + |texts[i]| - 1;
  }

  lemma PartSplicedStarts(template: string, texts: seq<string>)
    requires |texts| == |Offsets(template)|
    ensures PartSpliced(template, texts, 0, 0, template, 0)
  {
    assert template[..0] == [] && texts[..0] == [] && [] + template == template;
  }

  lemma RoundInRange(template: string, offsets: seq<nat>, texts: seq<string>, i: nat)
    requires i < |texts| == |offsets| && offsets == Offsets(template)
    ensures var (sql, offset) := Rounds(template, offsets, texts, i); 0 <= offsets[i] + offset < |sql|
  {
    var p, sql, offset := RoundsSplice(template, offsets, texts, i);
    PartSplicedStep(template, texts, i, p, sql, offset);
  }

  /** All rounds together are the splice. */
  lemma RoundsEnd(template: string, offsets: seq<nat>, texts: seq<string>)
    requires |texts| == |offsets| && offsets == Offsets(template)
    ensures Rounds(template, offsets, texts, |texts|).0 == Spliced(template, texts)
  {
    var p, sql, offset := RoundsSplice(template, offsets, texts, |texts|);
    assert template[..|template|] == template && texts[..|texts|] == texts;
    SplicedGap(template, texts, p, |template|);
  }

  /** GetRewriteSQL. */
  method GetRewriteSQL(template: string, offsets: seq<nat>, args: seq<Arg>) returns (sql: string)
    requires offsets == Offsets(template) && |args| == |offsets|
    ensures sql == Spliced(template, RenderedAll(args))
  {
    sql := template;
    var offset: int := 0;
    ghost var texts := RenderedAll(args);
    for i := 0 to |offsets|
      invariant Rounds(template, offsets, texts, i) == (sql, offset)
    {
      RoundInRange(template, offsets, texts, i);
      RoundsStep(template, offsets, texts, i, sql, offset);
      var growth;
      sql, growth := Substitute(sql, offsets[i] + offset, args[i], texts[i]);
      offset := offset + growth;
    }
    RoundsEnd(template, offsets, texts);
  }
}
