/** The lexer of src/session.c. A line is a C string without its terminator. */
module Tokenizer {
  const MAX_TOKS: nat := 256

  predicate IsSpace(c: char) {
    c == ' ' || c == '\t' || c == '\n' || c == 11 as char || c == 12 as char || c == '\r'
  }

  predicate IsOperator(c: char) {
    c == '|' || c == '>'
  }

  predicate EndsWord(c: char) {
    IsSpace(c) || IsOperator(c)
  }

  /** Length of the word part at the front of `s`; `inq` says whether the scan is
      inside double quotes. */
  function WordLength(s: string, inq: bool): (n: nat)
    ensures n <= |s|
    ensures s != "" && (inq || !EndsWord(s[0])) ==> 0 < n
  {
    if s == "" || (!inq && EndsWord(s[0])) then 0
    else 1 + WordLength(s[1..], if s[0] == '"' then !inq else inq)
  }

  /** One pair of enclosing quotes is removed. */
  function Unquote(t: string): string {
    if |t| >= 2 && t[0] == '"' && t[|t| - 1] == '"' then t[1..|t| - 1] else t
  }

  /** Length of the token at the front of a text that does not start blank. */
  function TokenLength(s: string): (n: nat)
    requires s != "" && !IsSpace(s[0])
    ensures 0 < n <= |s|
  {
    if s[0] == '>' && |s| > 1 && s[1] == '>' then 2
    else if IsOperator(s[0]) then 1
    else WordLength(s, false)
  }

  /** All tokens of a line, without the limit of 256. Operators have no quotes to
      remove. */
  function Lex(s: string): seq<string>
    decreases |s|
  {
    if s == "" then []
    else if IsSpace(s[0]) then Lex(s[1..])
    else
      var n := TokenLength(s);
      [Unquote(s[..n])] + Lex(s[n..])
  }

  function Take<T>(s: seq<T>, n: nat): seq<T> {
    if |s| <= n then s else s[..n]
  }

  /** The end of the word that starts at `start`. */
  method ScanWord(line: string, start: nat) returns (p: nat)
    requires start <= |line|
    ensures p == start + WordLength(line[start..], false)
  {
    p := start;
    var inq := false;
    while p < |line| && (inq || (!IsSpace(line[p]) && line[p] != '|' && line[p] != '>'))
      invariant start <= p <= |line|
      invariant start + WordLength(line[start..], false) == p + WordLength(line[p..], inq)
    {
      assert line[p..][1..] == line[p + 1..];
      if line[p] == '"' {
        inq := !inq;
      }
      p := p + 1;
    }
  }

  /** tokenize: the tokens stored, at most 256. The terminating NULL goes to index
      |toks|, so it is inside the array exactly when the line has fewer than 256
      tokens. */
  method Tokenize(line: string) returns (toks: seq<string>)
    ensures toks == Take(Lex(line), MAX_TOKS)
    ensures |toks| < MAX_TOKS <==> |Lex(line)| < MAX_TOKS
  {
    hide *;
    toks := [];
    var p := 0;
    ghost var seen: seq<string> := [];
    ReadsNothing(line);
    while p < |line|
      invariant 0 <= p <= |line|
      invariant Reads(seen, line, p)
      invariant toks == Take(seen, MAX_TOKS)
    {
      p := SkipSpaces(line, p, seen);
      if p == |line| {
        break;
      }
      if (line[p] == '|' || line[p] == '>') && |toks| >= MAX_TOKS {
        ReadsFull(seen, line, p);
        return;
      }
      var t: string;
      ReadsSnoc(seen, line, p);
      t, p := ReadToken(line, p);
      TakeSnoc(seen, t, MAX_TOKS);
      if |toks| < MAX_TOKS {
        toks := toks + [t];
      }
      seen := seen + [t];
    }
    ReadsFull(seen, line, p);
  }

  /** The text before position p lexes to `seen`. */
  ghost predicate Reads(seen: seq<string>, line: string, p: nat)
    requires p <= |line|
  {
    seen + Lex(line[p..]) == Lex(line)
  }

  lemma ReadsNothing(line: string)
    ensures Reads([], line, 0) && Take<string>([], MAX_TOKS) == []
  {
    hide Lex;
    assert line[0..] == line;
  }

  lemma ReadsSnoc(seen: seq<string>, line: string, p: nat)
    requires p < |line| && !IsSpace(line[p]) && Reads(seen, line, p)
    ensures var e := p + TokenLength(line[p..]);
      Reads(seen + [Unquote(line[p..e])], line, e)
  {
    hide Lex, TokenLength, Unquote;
    LexAt(line, p);
    var e := p + TokenLength(line[p..]);
    var t := Unquote(line[p..e]);
    assert seen + ([t] + Lex(line[e..])) == (seen + [t]) + Lex(line[e..]);
  }

  /** With a full array, or at the end of the line, nothing more is stored. */
  lemma ReadsFull(seen: seq<string>, line: string, p: nat)
    requires p <= |line| && Reads(seen, line, p) && (|Take(seen, MAX_TOKS)| >= MAX_TOKS || p == |line|)
    ensures Take(seen, MAX_TOKS) == Take(Lex(line), MAX_TOKS)
    ensures |Take(seen, MAX_TOKS)| < MAX_TOKS <==> |Lex(line)| < MAX_TOKS
  {
    TakeFull(seen, Lex(line[p..]), MAX_TOKS);
  }

  lemma TakeFull<T>(seen: seq<T>, rest: seq<T>, n: nat)
    ensures |Take(seen, n)| <= n && (seen == [] ==> Take(seen, n) == [])
    ensures |Take(seen, n)| == n || rest == [] ==> Take(seen + rest, n) == Take(seen, n)
    ensures |Take(seen + rest, n)| < n <==> |seen + rest| < n
  {
    if rest == [] {
      assert seen + rest == seen;
    }
  }

  /** Storing one more token, unless the array is full. */
  lemma TakeSnoc<T>(seen: seq<T>, t: T, n: nat)
    ensures Take(seen + [t], n) == if |Take(seen, n)| < n then Take(seen, n) + [t] else Take(seen, n)
  {
  }

  method SkipSpaces(line: string, start: nat, ghost seen: seq<string>) returns (p: nat)
    requires start <= |line| && Reads(seen, line, start)
    ensures start <= p <= |line| && Reads(seen, line, p)
    ensures p < |line| ==> !IsSpace(line[p])
  {
    p := start;
    while p < |line| && IsSpace(line[p])
      invariant start <= p <= |line| && Lex(line[p..]) == Lex(line[start..])
    {
      assert line[p..][1..] == line[p + 1..];
      p := p + 1;
    }
  }

  /** One step of Lex in terms of positions. */
  lemma LexAt(line: string, p: nat)
    requires p < |line| && !IsSpace(line[p])
    ensures var e := p + TokenLength(line[p..]);
      Lex(line[p..]) == [Unquote(line[p..e])] + Lex(line[e..])
  {
    hide TokenLength, Unquote;
    var n := TokenLength(line[p..]);
    assert line[p..][..n] == line[p..p + n] && line[p..][n..] == line[p + n..];
  }

  /** One operator or word, and the position behind it. */
  method ReadToken(line: string, start: nat) returns (t: string, p: nat)
    requires start < |line| && !IsSpace(line[start])
    ensures p == start + TokenLength(line[start..])
    ensures t == Unquote(line[start..p])
  {
    p := start;
    if line[p] == '|' || line[p] == '>' {
      if line[p] == '>' && p + 1 < |line| && line[p + 1] == '>' {
        assert line[start..start + 2] == ">>";
        return ">>", p + 2;
      }
      return [line[p]], p + 1;
    }
    p := ScanWord(line, start);
    t := line[start..p];
    if t[0] == '"' && t[|t| - 1] == '"' && |t| >= 2 {
      t := t[1..|t| - 1];
    }
  }

  /** Tokens are made of the characters of their line. */
  lemma {:induction false} LexKeepsChars(s: string)
    ensures forall t, c :: t in Lex(s) && c in t ==> c in s
    decreases |s|
  {
    hide TokenLength, Lex;
    LexUnfold(s);
    if s != "" {
      if IsSpace(s[0]) {
        LexKeepsChars(s[1..]);
      } else {
        var n := TokenLength(s);
        LexKeepsChars(s[n..]);
        assert forall c :: c in Unquote(s[..n]) ==> c in s[..n];
        assert s == s[..n] + s[n..];
      }
    }
  }

  lemma LexUnfold(s: string)
    ensures s == "" ==> Lex(s) == []
    ensures s != "" && IsSpace(s[0]) ==> Lex(s) == Lex(s[1..])
    ensures s != "" && !IsSpace(s[0]) ==> Lex(s) == [Unquote(s[..TokenLength(s)])] + Lex(s[TokenLength(s)..])
  {
    hide TokenLength, Unquote;
  }

  // ---------------------------------------------------------------- the tokens of a line

  /** The characters a word of the line cannot hold outside quotes, and a quote. */
  ghost predicate IsBare(w: string) {
    forall c :: c in w ==> c !in ['"', ' ', '\t', '\n', 11 as char, 12 as char, '\r', '|', '>']
  }

  /** Text that ends a word put in front of it. */
  predicate Separates(rest: string) {
    rest == "" || rest[0] in [' ', '\t', '\n', 11 as char, 12 as char, '\r', '|', '>']
  }

  function Quoted(w: string): string {
    "\"" + w + "\""
  }

  lemma {:induction false} BareLength(w: string, rest: string)
    requires IsBare(w)
    ensures WordLength(w + rest, false) == |w| + WordLength(rest, false)
  {
    var s := w + rest;
    if w == "" {
      assert s == rest;
    } else {
      assert s[0] == w[0] && w[0] in w && s[1..] == w[1..] + rest;
      assert forall c :: c in w[1..] ==> c in w;
      BareLength(w[1..], rest);
    }
  }

  lemma {:induction false} InsideQuotes(q: string, rest: string)
    requires '"' !in q
    ensures WordLength(q + "\"" + rest, true) == |q| + 1 + WordLength(rest, false)
  {
    var s := q + "\"" + rest;
    if q == "" {
      assert s[1..] == rest;
    } else {
      assert s[0] == q[0] && q[0] in q;
      assert s[1..] == q[1..] + "\"" + rest;
      InsideQuotes(q[1..], rest);
    }
  }

  lemma {:induction false} OpenQuotes(q: string)
    requires '"' !in q
    ensures WordLength(q, true) == |q|
  {
    if q != "" {
      OpenQuotes(q[1..]);
    }
  }

  lemma Separated(rest: string)
    requires Separates(rest)
    ensures WordLength(rest, false) == 0
  {
  }

  /** The first token, when its length is known. */
  lemma LexFirst(t: string, rest: string)
    requires t != "" && !EndsWord(t[0]) && WordLength(t + rest, false) == |t|
    ensures Lex(t + rest) == [Unquote(t)] + Lex(rest)
  {
    hide WordLength, Unquote;
    var s := t + rest;
    assert s[0] == t[0] && s[..|t|] == t && s[|t|..] == rest;
  }

  /** An unquoted word ends before a blank, an operator or the end of the line. */
  lemma LexWord(w: string, rest: string)
    requires w != "" && forall c :: c in w ==> c !in ['"', ' ', '\t', '\n', 11 as char, 12 as char, '\r', '|', '>']
    requires rest == "" || rest[0] in [' ', '\t', '\n', 11 as char, 12 as char, '\r', '|', '>']
    ensures Lex(w + rest) == [w] + Lex(rest)
  {
    hide Lex;
    BareLength(w, rest);
    Separated(rest);
    assert w[0] in w;
    LexFirst(w, rest);
  }

  /** Blanks and operators between quotes belong to the word, and the quotes go only
      if they enclose the whole of it. */
  lemma LexMixed(w: string, q: string, v: string, rest: string)
    requires IsBare(w) && '"' !in q && IsBare(v) && Separates(rest)
    ensures Lex(w + Quoted(q) + v + rest) == [if w == v == "" then q else w + Quoted(q) + v] + Lex(rest)
  {
    hide Lex, WordLength;
    var t := w + Quoted(q) + v;
    MixedLength(w, q, v, rest);
    assert w != "" ==> w[0] in w;
    LexFirst(t, rest);
    MixedUnquote(w, q, v);
  }

  lemma MixedLength(w: string, q: string, v: string, rest: string)
    requires IsBare(w) && '"' !in q && IsBare(v) && Separates(rest)
    ensures var t := w + Quoted(q) + v;
      WordLength(t + rest, false) == |t|
  {
    Separated(rest);
    BareLength(v, rest);
    InsideQuotes(q, v + rest);
    var quoted := Quoted(q) + (v + rest);
    assert quoted[0] == '"' && quoted[1..] == q + "\"" + (v + rest);
    assert WordLength(quoted, false) == 1 + WordLength(quoted[1..], true);
    hide WordLength;
    BareLength(w, quoted);
    assert w + Quoted(q) + v + rest == w + quoted;
  }

  lemma MixedUnquote(w: string, q: string, v: string)
    requires IsBare(w) && IsBare(v)
    ensures Unquote(w + Quoted(q) + v) == if w == v == "" then q else w + Quoted(q) + v
  {
    var t := w + Quoted(q) + v;
    if w == v == "" {
      assert t == Quoted(q) && t[1..|t| - 1] == q;
    } else if w != "" {
      assert t[0] == w[0] && w[0] in w;
    } else {
      assert t[|t| - 1] == v[|v| - 1] && v[|v| - 1] in v;
    }
  }

  /** A quote that is not closed takes the rest of the line and stays. */
  lemma LexUnclosed(w: string, q: string)
    requires IsBare(w) && '"' !in q
    ensures Lex(w + "\"" + q) == [w + "\"" + q]
  {
    hide Lex;
    var t, open := w + "\"" + q, "\"" + q;
    OpenQuotes(q);
    assert open[1..] == q && WordLength(open, false) == 1 + WordLength(q, true);
    BareLength(w, open);
    assert t == w + open && t + "" == t;
    assert w != "" ==> w[0] in w;
    LexFirst(t, "");
    assert Unquote(t) == t by {
      assert |t| >= 2 && w == "" ==> q != "" && t[|t| - 1] == q[|q| - 1] && q[|q| - 1] in q;
    }
    LexNothing();
  }

  lemma LexNothing()
    ensures Lex("") == []
  {
  }

  /** A quoted word without quotes inside is one token, whatever else it holds. */
  lemma LexQuoted(w: string, rest: string)
    requires '"' !in w && Separates(rest)
    ensures Lex(Quoted(w) + rest) == [w] + Lex(rest)
  {
    hide Lex;
    LexMixed("", w, "", rest);
    assert "" + Quoted(w) + "" + rest == Quoted(w) + rest;
  }

  lemma LexBlank(c: char, rest: string)
    requires c in [' ', '\t', '\n', 11 as char, 12 as char, '\r']
    ensures Lex([c] + rest) == Lex(rest)
  {
    assert ([c] + rest)[1..] == rest;
  }

  /** Operators are tokens of their own, with or without blanks around them, and
      two > in a row are one. */
  lemma LexOperator(op: string, rest: string)
    requires op == "|" || op == ">>" || (op == ">" && (rest == "" || rest[0] != '>'))
    ensures Lex(op + rest) == [op] + Lex(rest)
  {
    var s := op + rest;
    assert s[|op|..] == rest && s[..|op|] == op && s[0] == op[0];
    assert |op| == 2 ==> s[1] == '>';
    assert op == ">" && rest != "" ==> s[1] == rest[0];
    assert TokenLength(s) == |op| && Unquote(op) == op;
    hide TokenLength, Unquote;
  }

  /** A free-standing operator. */
  lemma LexSpacedOperator(op: string, rest: string)
    requires op == "|" || op == ">" || op == ">>"
    ensures Lex(" " + op + " " + rest) == [op] + Lex(rest)
  {
    hide Lex;
    assert " " + op + " " + rest == [' '] + (op + ([' '] + rest));
    LexBlank(' ', op + ([' '] + rest));
    LexOperator(op, [' '] + rest);
    LexBlank(' ', rest);
  }
}
