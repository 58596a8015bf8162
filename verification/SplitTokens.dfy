/** The statements that scan are exactly those made of plain characters, line comments, quoted texts and
    dollar quotes; of these only the comments are left out. */
module SplitTokens {
  import opened Basics
  import opened SplitQueries
  import opened SplitTheorem

  datatype Token =
    | Plain(c: char)
    | Remark(body: string)
    | Quoted(q: char, body: string)
    | Dollared(tag: string, body: string)
  {
    function Fence(): (s: string)
      requires Dollared?
      ensures |s| >= 2
    {
      "$" + tag + "$"
    }

    function Text(): (s: string)
      ensures s != []
    {
      match this
      case Plain(c) => [c]
      case Remark(body) => "--" + (body + "\n")
      case Quoted(q, body) => [q] + (body + [q])
      case Dollared(tag, body) => Fence() + (body + Fence())
    }

    function Kept(): (s: string) {
      if Remark? then [] else Text()
    }

    /** The token is complete when the character next follows it. */
    ghost predicate Legal(next: char) {
      match this
      case Plain(c) => c != '$' && c != '\'' && c != '"' && c != ';' && !(c == '-' && next == '-')
      case Remark(body) => '\n' !in body
      case Quoted(q, body) => (q == '\'' || q == '"') && Doubled(body, q) && next != q
      case Dollared(tag, body) => '$' !in tag && NoFence(body, Fence())
    }
  }

  /** Every q in the body comes in pairs. */
  ghost predicate Doubled(body: string, q: char) {
    body == [] || (if body[0] != q then Doubled(body[1..], q) else |body| >= 2 && body[1] == q && Doubled(body[2..], q))
  }

  /** The fence occurs after the body, and not before. */
  ghost predicate NoFence(body: string, fence: string) {
    forall k :: 0 <= k < |body| ==> !(fence <= (body + fence)[k..])
  }

  function First(s: string): (c: char) {
    if s == [] then ';' else s[0]
  }

  ghost function Texts(toks: seq<Token>): (s: string) {
    if toks == [] then [] else toks[0].Text() + Texts(toks[1..])
  }

  ghost function KeptOf(toks: seq<Token>): (s: string) {
    if toks == [] then [] else toks[0].Kept() + KeptOf(toks[1..])
  }

  ghost predicate AllLegal(toks: seq<Token>) {
    toks == [] || (toks[0].Legal(First(Texts(toks[1..]))) && AllLegal(toks[1..]))
  }

  // ---- turns over a token

  /** The mode and the query after the turns that leave the last `left` characters of t, of which each finds a
      further character, and none puts out a query. */
  ghost function Walk(t: string, left: nat, m: Mode, cur: string): (r: Option<(Mode, string)>)
    requires Possible(m)
    ensures r.Some? ==> Possible(r.value.0)
    decreases |t|
  {
    if |t| == left then Some((m, cur))
    else if |t| < left || |t| < 2 || m == Copy || (m == Neutral && t[0] == ';') then None
    else
      var r := Next(t, m, cur);
      Walk(t[r.used..], left, r.mode, r.cur)
  }

  /** One turn. */
  lemma WalkTurn(t: string, m: Mode, cur: string, used: nat, m': Mode, cur': string, rest: string, left: nat)
    requires Possible(m) && Possible(m') && |t| >= 2 && |t| > left && m != Copy && !(m == Neutral && t[0] == ';')
    requires Next(t, m, cur) == Move(used, m', cur', []) && used <= |t| && t[used..] == rest
    ensures Walk(t, left, m, cur) == Walk(rest, left, m', cur')
  {
  }

  ghost predicate EndsIn(t: string, rest: string) {
    |rest| <= |t| && t[|t| - |rest|..] == rest
  }

  lemma EndsLater(t: string, k: nat, rest: string)
    requires EndsIn(t, rest) && k + |rest| <= |t|
    ensures EndsIn(t[k..], rest)
  {
  }

  lemma WalkEnds(t: string, left: nat, m: Mode, cur: string)
    requires Possible(m) && Walk(t, left, m, cur).Some?
    ensures left <= |t|
  {
  }

  /** The first of the turns. */
  lemma WalkStep(t: string, left: nat, m: Mode, cur: string) returns (r: Move)
    requires Possible(m) && |t| > left && Walk(t, left, m, cur).Some?
    ensures |t| >= 2 && r == Next(t, m, cur) && r.out == [] && Possible(r.mode) && r.used + left <= |t|
    ensures Walk(t, left, m, cur) == Walk(t[r.used..], left, r.mode, r.cur)
  {
    r := Next(t, m, cur);
    WalkEnds(t[r.used..], left, r.mode, r.cur);
  }

  /** The splitter makes the same turns. */
  lemma {:induction false} WalkSplits(t: string, rest: string, m: Mode, cur: string, m': Mode, cur': string)
    requires Possible(m) && EndsIn(t, rest) && Walk(t, |rest|, m, cur) == Some((m', cur'))
    ensures Split(t, m, cur) == Split(rest, m', cur')
    decreases |t|
  {
    if |t| == |rest| {
      assert t == rest;
    } else {
      var r := WalkStep(t, |rest|, m, cur);
      var u := t[r.used..];
      EndsLater(t, r.used, rest);
      QuietTurn(t, m, cur, r, u);
      WalkSplits(u, rest, r.mode, r.cur, m', cur');
    }
  }

  /** So does the scan of a statement that a semicolon follows. */
  lemma {:induction false} WalkScans(t: string, rest: string, m: Mode, cur: string, m': Mode, cur': string)
    requires Possible(m) && EndsIn(t, rest) && Walk(t + ";", |rest| + 1, m, cur) == Some((m', cur'))
    ensures Scan(t, m, cur) == Scan(rest, m', cur')
    decreases |t|
  {
    if |t| == |rest| {
      assert t == rest;
    } else {
      var r := Next(t + ";", m, cur);
      WalkEnds((t + ";")[r.used..], |rest| + 1, r.mode, r.cur);
      assert (t + ";")[r.used..] == t[r.used..] + ";" && (t + ";")[0] == t[0];
      EndsLater(t, r.used, rest);
      WalkScans(t[r.used..], rest, r.mode, r.cur, m', cur');
    }
  }

  // ---- the turns over each kind of token

  lemma {:induction false} CommentWalk(body: string, rest: string, cur: string)
    requires '\n' !in body && rest != []
    ensures Walk(body + "\n" + rest, |rest|, Comment, cur) == Some((Neutral, cur))
  {
    var t := body + "\n" + rest;
    if body == [] {
      WalkTurn(t, Comment, cur, 1, Neutral, cur, rest, |rest|);
    } else {
      assert t[0] == body[0] && body[0] in body;
      WalkTurn(t, Comment, cur, 1, Comment, cur, body[1..] + "\n" + rest, |rest|);
      CommentWalk(body[1..], rest, cur);
    }
  }

  /** A character of the body that is not the quote, or a doubled quote. */
  lemma QuoteHead(head: string, q: char, rest: string, cur: string, left: nat)
    requires Possible(Quote(q)) && rest != [] && left <= |rest| && (head == [q, q] || (|head| == 1 && head[0] != q))
    ensures Walk(head + rest, left, Quote(q), cur) == Walk(rest, left, Quote(q), cur + head)
  {
    assert cur + [q] + [q] == cur + [q, q];
    WalkTurn(head + rest, Quote(q), cur, |head|, Quote(q), cur + head, rest, left);
  }

  /** The first character of a body, or its first pair of quotes. */
  lemma TakeHead(body: string, q: char) returns (head: string, tail: string)
    requires body != [] && Doubled(body, q)
    ensures body == head + tail && Doubled(tail, q) && |tail| < |body|
    ensures head == [q, q] || (|head| == 1 && head[0] != q)
  {
    var k := if body[0] != q then 1 else 2;
    head, tail := body[..k], body[k..];
    if k == 2 { assert head == [q, q]; }
  }

  lemma {:induction false} QuoteWalk(body: string, q: char, rest: string, cur: string)
    requires Possible(Quote(q)) && Doubled(body, q) && rest != [] && rest[0] != q
    ensures Walk(body + [q] + rest, |rest|, Quote(q), cur) == Some((Neutral, cur + body + [q]))
    decreases |body|
  {
    if body == [] {
      assert body + [q] + rest == [q] + rest && cur + body == cur;
      WalkTurn([q] + rest, Quote(q), cur, 1, Neutral, cur + [q], rest, |rest|);
    } else {
      var head, tail := TakeHead(body, q);
      QuoteJoin(head, tail, q, rest);
      QuoteHead(head, q, tail + [q] + rest, cur, |rest|);
      QuoteWalk(tail, q, rest, cur + head);
      Regroup(cur, head, tail);
    }
  }

  lemma FenceLater(body: string, fence: string)
    requires body != [] && NoFence(body, fence)
    ensures NoFence(body[1..], fence)
  {
    forall k | 0 <= k < |body[1..]| ensures !(fence <= (body[1..] + fence)[k..]) {
      assert (body[1..] + fence)[k..] == (body + fence)[k + 1..];
    }
  }

  /** A fence that ends before the end of the text stays one when the text goes on. */
  lemma NoFenceHere(body: string, fence: string, more: string)
    requires body != [] && NoFence(body, fence)
    ensures !(fence <= body + fence + more)
  {
    assert !(fence <= (body + fence)[0..]);
    assert (body + fence + more)[..|fence|] == (body + fence)[0..][..|fence|];
  }

  lemma {:induction false} DollarWalk(body: string, fence: string, rest: string, cur: string)
    requires |fence| >= 2 && fence[0] == '$' && NoFence(body, fence)
    ensures Walk(body + fence + rest, |rest|, Dollar(fence), cur) == Some((Neutral, cur + body + fence))
    decreases |body|
  {
    var t := body + fence + rest;
    if body == [] {
      assert cur + body + fence == cur + fence && fence <= t;
      WalkTurn(t, Dollar(fence), cur, |fence|, Neutral, cur + fence, rest, |rest|);
    } else {
      NoFenceHere(body, fence, rest);
      WalkTurn(t, Dollar(fence), cur, 1, Dollar(fence), cur + [body[0]], body[1..] + fence + rest, |rest|);
      FenceLater(body, fence);
      DollarWalk(body[1..], fence, rest, cur + [body[0]]);
      assert cur + [body[0]] + body[1..] == cur + body;
    }
  }

  lemma {:induction false} TagIsFence(tag: string, rest: string, c: char)
    requires '$' !in tag
    ensures TagOf([c] + tag + "$" + rest) == [c] + tag + "$"
    decreases |tag|
  {
    var s := [c] + tag + "$" + rest;
    if tag == [] {
      assert s[..2] == [c] + tag + "$";
    } else {
      assert s[1] == tag[0] && tag[0] in tag;
      assert s[1..] == [tag[0]] + tag[1..] + "$" + rest;
      TagIsFence(tag[1..], rest, tag[0]);
      assert [c] + ([tag[0]] + tag[1..] + "$") == [c] + tag + "$";
    }
  }

  lemma RemarkWalk(body: string, rest: string, cur: string)
    requires '\n' !in body && rest != []
    ensures Walk("--" + (body + "\n") + rest, |rest|, Neutral, cur) == Some((Neutral, cur))
  {
    var t, after := "--" + (body + "\n") + rest, "-" + body + "\n" + rest;
    assert t[0] == '-' && t[1] == '-' && t[1..] == after;
    WalkTurn(t, Neutral, cur, 1, Comment, cur, after, |rest|);
    CommentWalk("-" + body, rest, cur);
  }

  lemma QuotedWalk(q: char, body: string, rest: string, cur: string, text: string)
    requires rest != [] && Quoted(q, body).Legal(rest[0]) && text == [q] + (body + [q])
    ensures Walk(text + rest, |rest|, Neutral, cur) == Some((Neutral, cur + text))
  {
    assert (text + rest)[1..] == body + [q] + rest;
    WalkTurn(text + rest, Neutral, cur, 1, Quote(q), cur + [q], body + [q] + rest, |rest|);
    QuoteWalk(body, q, rest, cur + [q]);
    Regroup(cur + [q], body, [q]);
    Regroup(cur, [q], body + [q]);
  }

  lemma DollaredWalk(tag: string, body: string, rest: string, cur: string, fence: string, text: string)
    requires '$' !in tag && fence == "$" + tag + "$" && NoFence(body, fence) && text == fence + (body + fence)
    ensures Walk(text + rest, |rest|, Neutral, cur) == Some((Neutral, cur + text))
  {
    var t, after := text + rest, body + fence + rest;
    Regroup(fence, body + fence, rest);
    assert t[|fence|..] == after;
    TagIsFence(tag, after, '$');
    WalkTurn(t, Neutral, cur, |fence|, Dollar(fence), cur + fence, after, |rest|);
    DollarWalk(body, fence, rest, cur + fence);
    Regroup(cur + fence, body, fence);
    Regroup(cur, fence, body + fence);
  }

  /** The turns over a token that something follows. */
  lemma TokenWalk(tok: Token, rest: string, cur: string)
    requires rest != [] && tok.Legal(rest[0])
    ensures Walk(tok.Text() + rest, |rest|, Neutral, cur) == Some((Neutral, cur + tok.Kept()))
  {
    match tok
    case Plain(c) =>
      WalkTurn([c] + rest, Neutral, cur, 1, Neutral, cur + [c], rest, |rest|);
    case Remark(body) =>
      RemarkWalk(body, rest, cur);
      assert cur + [] == cur;
    case Quoted(q, body) => QuotedWalk(q, body, rest, cur, tok.Text());
    case Dollared(tag, body) => DollaredWalk(tag, body, rest, cur, tok.Fence(), tok.Text());
  }

  // ---- tokens scan

  /** A token takes the scan from neutral mode to neutral mode. */
  lemma TokenScans(tok: Token, rest: string, cur: string)
    requires tok.Legal(First(rest))
    ensures Scan(tok.Text() + rest, Neutral, cur) == Scan(rest, Neutral, cur + tok.Kept())
  {
    var t := tok.Text() + rest;
    assert (rest + ";")[0] == First(rest);
    TokenWalk(tok, rest + ";", cur);
    Regroup(tok.Text(), rest, ";");
    assert EndsIn(t, rest);
    WalkScans(t, rest, Neutral, cur, Neutral, cur + tok.Kept());
  }

  /** A text made of complete tokens scans, whatever semicolons lie inside them. */
  lemma {:induction false} TokensScan(toks: seq<Token>, cur: string)
    requires AllLegal(toks)
    ensures Scan(Texts(toks), Neutral, cur) == Some(cur + KeptOf(toks))
    decreases |toks|
  {
    if toks == [] {
      assert cur + KeptOf(toks) == cur;
    } else {
      var kept, rest := toks[0].Kept(), KeptOf(toks[1..]);
      TokenScans(toks[0], Texts(toks[1..]), cur);
      TokensScan(toks[1..], cur + kept);
      Regroup(cur, kept, rest);
    }
  }

  // ---- a text that scans is made of tokens

  lemma {:induction false} CommentEnds(t: string, cur: string) returns (body: string, rest: string)
    requires Scan(t, Comment, cur).Some?
    ensures t == body + "\n" + rest && '\n' !in body
  {
    if t[0] == '\n' {
      body, rest := [], t[1..];
    } else {
      body, rest := CommentEnds(t[1..], cur);
      body := [t[0]] + body;
    }
  }

  lemma DoubledCons(head: string, body: string, q: char)
    requires Doubled(body, q) && (head == [q, q] || (|head| == 1 && head[0] != q))
    ensures Doubled(head + body, q)
  {
    assert (head + body)[|head|..] == body;
  }

  lemma QuoteJoin(head: string, body: string, q: char, rest: string)
    ensures head + (body + [q] + rest) == head + body + [q] + rest
  {
  }

  lemma {:induction false} QuoteEnds(t: string, q: char, cur: string) returns (body: string, rest: string)
    requires Possible(Quote(q)) && Scan(t, Quote(q), cur).Some?
    ensures t == body + [q] + rest && Doubled(body, q) && First(rest) != q
    decreases |t|
  {
    assert t != [];
    if t[0] != q {
      assert t == [t[0]] + t[1..];
      body, rest := QuoteEnds(t[1..], q, cur + [t[0]]);
      DoubledCons([t[0]], body, q);
      QuoteJoin([t[0]], body, q, rest);
      body := [t[0]] + body;
    } else if |t| > 1 && t[1] == q {
      assert t == [q, q] + t[2..] && cur + [q] + [q] == cur + [q, q];
      body, rest := QuoteEnds(t[2..], q, cur + [q, q]);
      DoubledCons([q, q], body, q);
      QuoteJoin([q, q], body, q, rest);
      body := [q, q] + body;
    } else {
      body, rest := [], t[1..];
      assert t == [q] + rest && [] + [q] + rest == [q] + rest;
    }
  }

  /** The body before the fence, and what remains; a fence that the text does not reach is none. */
  lemma {:induction false} DollarEnds(t: string, fence: string, cur: string) returns (body: string, rest: string)
    requires |fence| >= 2 && fence[0] == '$' && Scan(t, Dollar(fence), cur).Some?
    ensures t == body + fence + rest && NoFence(body, fence)
    decreases |t|
  {
    if fence <= t + ";" {
      body, rest := [], t[|fence|..];
      assert t == body + fence + rest;
    } else {
      var body';
      body', rest := DollarEnds(t[1..], fence, cur + [t[0]]);
      body := [t[0]] + body';
      assert t == body + fence + rest;
      FenceEarlier(body, body', fence, rest);
    }
  }

  lemma FenceEarlier(body: string, body': string, fence: string, rest: string)
    requires |body| == |body'| + 1 && body[1..] == body' && NoFence(body', fence)
    requires !(fence <= body + fence + rest + ";")
    ensures NoFence(body, fence)
  {
    forall k | 0 <= k < |body| ensures !(fence <= (body + fence)[k..]) {
      if k == 0 {
        assert (body + fence + rest + ";")[..|fence|] == (body + fence)[0..][..|fence|];
      } else {
        assert (body + fence)[k..] == (body' + fence)[k - 1..];
      }
    }
  }

  /** The tag in front of a text: a dollar sign, no further one, and a dollar sign. */
  lemma {:induction false} TagEnds(s: string) returns (tag: string)
    requires |s| >= 2 && |TagOf(s)| < |s|
    ensures '$' !in tag && TagOf(s) == [s[0]] + tag + "$"
  {
    if s[1] == '$' {
      tag := [];
      assert TagOf(s) == [s[0], '$'];
    } else {
      tag := TagEnds(s[1..]);
      tag := [s[1]] + tag;
    }
  }

  lemma FirstRemark(t: string, cur: string) returns (tok: Token, rest: string)
    requires |t| >= 2 && t[0] == '-' && t[1] == '-' && Scan(t, Neutral, cur).Some?
    ensures t == tok.Text() + rest && tok.Legal(First(rest))
  {
    var body;
    assert (t + ";")[1] == t[1];
    body, rest := CommentEnds(t[1..], cur);
    assert t[1..][0] == '-';
    tok := Remark(body[1..]);
    assert t == ['-'] + t[1..] == "--" + (body[1..] + "\n") + rest;
  }

  lemma FirstDollared(t: string, cur: string) returns (tok: Token, rest: string)
    requires t != [] && t[0] == '$' && Scan(t, Neutral, cur).Some?
    ensures t == tok.Text() + rest && tok.Legal(First(rest))
  {
    var u := t + ";";
    var fence := TagOf(u);
    var tag := TagEnds(u);
    var body;
    body, rest := DollarEnds(t[|fence|..], fence, cur + fence);
    tok := Dollared(tag, body);
    assert tok.Fence() == fence == t[..|fence|];
    assert t == t[..|fence|] + t[|fence|..];
    Regroup(fence, body + fence, rest);
  }

  lemma FirstQuoted(t: string, cur: string) returns (tok: Token, rest: string)
    requires t != [] && Possible(Quote(t[0])) && Scan(t, Neutral, cur).Some?
    ensures t == tok.Text() + rest && tok.Legal(First(rest))
  {
    var body;
    body, rest := QuoteEnds(t[1..], t[0], cur + [t[0]]);
    tok := Quoted(t[0], body);
    assert t == [t[0]] + t[1..] == [t[0]] + (body + [t[0]]) + rest;
  }

  /** The first token of a text that scans. */
  lemma FirstToken(t: string, cur: string) returns (tok: Token, rest: string)
    requires t != [] && Scan(t, Neutral, cur).Some?
    ensures t == tok.Text() + rest && tok.Legal(First(rest))
  {
    if |t| >= 2 && t[0] == '-' && t[1] == '-' {
      tok, rest := FirstRemark(t, cur);
    } else if t[0] == '$' {
      tok, rest := FirstDollared(t, cur);
    } else if Possible(Quote(t[0])) {
      tok, rest := FirstQuoted(t, cur);
    } else {
      tok, rest := Plain(t[0]), t[1..];
      assert t == [t[0]] + t[1..];
    }
  }

  /** A text that scans is made of complete tokens, and the scan keeps all but the comments. */
  lemma {:induction false} ScanTokens(t: string, cur: string) returns (toks: seq<Token>)
    requires Scan(t, Neutral, cur).Some?
    ensures AllLegal(toks) && Texts(toks) == t && Scan(t, Neutral, cur) == Some(cur + KeptOf(toks))
    decreases |t|
  {
    if t == [] {
      toks := [];
      assert cur + KeptOf(toks) == cur;
    } else {
      var tok, rest := FirstToken(t, cur);
      TokenScans(tok, rest, cur);
      var more := ScanTokens(rest, cur + tok.Kept());
      toks := [tok] + more;
      assert toks[1..] == more;
      Regroup(cur, tok.Kept(), KeptOf(more));
    }
  }
}
