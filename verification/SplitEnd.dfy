/** What the splitter makes of the end of a script, and which texts its tests are about. */
module SplitEnd {
  import opened Basics
  import opened DecimalText
  import opened SplitQueries
  import opened SplitTheorem
  import opened SplitTokens

  // ---- trimming

  ghost predicate Tidy(s: string) {
    s != [] ==> !IsSpace(s[0]) && !IsSpace(s[|s| - 1])
  }

  lemma {:induction false} LeftTrimmed(pre: string, s: string)
    requires Blank(pre) && (s != [] ==> !IsSpace(s[0]))
    ensures TrimLeft(pre + s) == s
    decreases |pre|
  {
    if pre == [] {
      assert pre + s == s;
    } else {
      assert (pre + s)[1..] == pre[1..] + s;
      LeftTrimmed(pre[1..], s);
    }
  }

  lemma {:induction false} RightTrimmed(s: string, post: string)
    requires Blank(post) && (s != [] ==> !IsSpace(s[|s| - 1]))
    ensures TrimRight(s + post) == s
    decreases |post|
  {
    if post == [] {
      assert s + post == s;
    } else {
      var n := |post| - 1;
      assert (s + post)[..|s| + n] == s + post[..n];
      RightTrimmed(s, post[..n]);
    }
  }

  /** Trimming takes away the blanks at both ends, and nothing else. */
  lemma TrimOnly(pre: string, s: string, post: string)
    requires Blank(pre) && Blank(post) && Tidy(s)
    ensures Trim(pre + s + post) == s
  {
    if s == [] {
      TrimBlank(pre + s + post);
    } else {
      Regroup(pre, s, post);
      LeftTrimmed(pre, s + post);
      RightTrimmed(s, post);
    }
  }

  /** How many blanks s starts with. */
  ghost function Blanks(s: string): (n: nat)
    ensures n <= |s| && Blank(s[..n]) && (n < |s| ==> !IsSpace(s[n]))
  {
    if s == [] || !IsSpace(s[0]) then 0 else 1 + Blanks(s[1..])
  }

  lemma {:induction false} EndBlanks(s: string) returns (n: nat)
    ensures n <= |s| && Blank(s[n..]) && (n > 0 ==> !IsSpace(s[n - 1]))
  {
    n := |s|;
    if s != [] && IsSpace(s[|s| - 1]) {
      n := EndBlanks(s[..|s| - 1]);
      assert s[n..] == s[..|s| - 1][n..] + [s[|s| - 1]];
    }
  }

  /** Every text is blanks, what trimming leaves, and blanks. */
  lemma TrimSplits(s: string) returns (pre: string, post: string)
    ensures s == pre + Trim(s) + post && Blank(pre) && Blank(post) && Tidy(Trim(s))
  {
    var k := Blanks(s);
    pre := s[..k];
    var n := EndBlanks(s[k..]);
    post := s[k..][n..];
    assert s == pre + s[k..][..n] + post;
    if n > 0 { assert s[k..][0] == s[k]; }
    TrimOnly(pre, s[k..][..n], post);
  }

  /** A blank at the end is trimmed. */
  lemma TrimEnd(s: string, c: char)
    requires IsSpace(c)
    ensures Trim(s + [c]) == Trim(s)
  {
    var pre, post := TrimSplits(s);
    assert s + [c] == pre + Trim(s) + (post + [c]);
    TrimOnly(pre, Trim(s), post + [c]);
  }

  /** Something is left by trimming unless all is blank. */
  lemma TrimLeaves(s: string)
    requires !Blank(s)
    ensures Trim(s) != []
  {
    var pre, post := TrimSplits(s);
    BlankJoined(pre, post);
    assert pre + [] + post == pre + post;
  }

  lemma BlankJoined(s: string, t: string)
    ensures Blank(s + t) <==> Blank(s) && Blank(t)
  {
    assert forall i :: 0 <= i < |s| ==> (s + t)[i] == s[i];
    assert forall i :: 0 <= i < |t| ==> (s + t)[|s| + i] == t[i];
  }

  // ---- COPY

  /** A query that data lines follow starts with COPY and a space and ends with a space and STDIN, in letters of either
      case; a line feed counts as a space. */
  lemma CopyTexts(q: string)
    ensures IsCopy(q) <==>
      && |q| >= 6 && q[0] in {'c', 'C'} && q[1] in {'o', 'O'} && q[2] in {'p', 'P'} && q[3] in {'y', 'Y'} && q[4] in {' ', '\n'}
      && var n := |q|;
        && q[n - 6] in {' ', '\n'} && q[n - 5] in {'s', 'S'} && q[n - 4] in {'t', 'T'} && q[n - 3] in {'d', 'D'}
        && q[n - 2] in {'i', 'I'} && q[n - 1] in {'n', 'N'}
  {
  }

  // ---- a last statement without a semicolon

  /** Inside a comment, the last character of the script is taken all the same. */
  lemma {:induction false} CommentLast(u: string, c: char, cur: string)
    requires '\n' !in u
    ensures Split(u + [c], Comment, cur) == NonEmpty(Trim(if c != ';' then cur + [c] else cur))
    decreases |u|
  {
    if u == [] {
      assert u + [c] == [c];
    } else {
      assert (u + [c])[0] == u[0] && u[0] in u;
      QuietTurn(u + [c], Comment, cur, Move(1, Comment, cur, []), u[1..] + [c]);
      CommentLast(u[1..], c, cur);
    }
  }

  /** A text in quotes up to its last character. */
  lemma {:induction false} QuoteLast(body: string, q: char, cur: string)
    requires Possible(Quote(q)) && Doubled(body, q)
    ensures Split(body + [q], Quote(q), cur) == NonEmpty(Trim(cur + body + [q]))
    decreases |body|
  {
    if body == [] {
      assert body + [q] == [q] && cur + body == cur;
    } else {
      var head, tail := TakeHead(body, q);
      Regroup(head, tail, [q]);
      HeadSplits(head, q, tail + [q], cur);
      QuoteLast(tail, q, cur + head);
      Regroup(cur, head, tail);
    }
  }

  lemma HeadSplits(head: string, q: char, rest: string, cur: string)
    requires Possible(Quote(q)) && rest != [] && (head == [q, q] || (|head| == 1 && head[0] != q))
    ensures Split(head + rest, Quote(q), cur) == Split(rest, Quote(q), cur + head)
  {
    assert cur + [q] + [q] == cur + [q, q];
    QuietTurn(head + rest, Quote(q), cur, Move(|head|, Quote(q), cur + head, []), rest);
  }

  lemma Dashes(body: string, c: char)
    ensures var t := "--" + (body + [c]);
      t[0] == '-' && t[1] == '-' && t[1..] == "-" + body + [c] && ('\n' !in body ==> '\n' !in "-" + body)
  {
  }

  /** A comment that the script ends in. */
  lemma CommentSplits(body: string, c: char, cur: string)
    requires '\n' !in body
    ensures Split("--" + (body + [c]), Neutral, cur) == NonEmpty(Trim(if c != ';' then cur + [c] else cur))
  {
    Dashes(body, c);
    DashesSplit("--" + (body + [c]), "-" + body + [c], cur);
    CommentLast("-" + body, c, cur);
  }

  lemma DashesSplit(t: string, u: string, cur: string)
    requires |t| >= 2 && t[0] == '-' && t[1] == '-' && u == t[1..]
    ensures Split(t, Neutral, cur) == Split(u, Comment, cur)
  {
    QuietTurn(t, Neutral, cur, Move(1, Comment, cur, []), u);
  }

  lemma LastQuoted(q: char, body: string, cur: string)
    requires Possible(Quote(q)) && Doubled(body, q)
    ensures Split([q] + (body + [q]), Neutral, cur) == NonEmpty(Trim(cur + ([q] + (body + [q]))))
  {
    var t := [q] + (body + [q]);
    QuietTurn(t, Neutral, cur, Move(1, Quote(q), cur + [q], []), body + [q]);
    QuoteLast(body, q, cur + [q]);
    Regroup(cur + [q], body, [q]);
    Regroup(cur, [q], body + [q]);
  }

  /** The splitter jumps over the end of a dollar quote, and past the end of the script: the query is lost. */
  lemma LastDollared(tag: string, body: string, cur: string, fence: string, text: string)
    requires '$' !in tag && fence == "$" + tag + "$" && NoFence(body, fence) && text == fence + (body + fence)
    ensures Split(text, Neutral, cur) == []
  {
    DollaredWalk(tag, body, [], cur, fence, text);
    assert text + [] == text;
    WalkSplits(text, [], Neutral, cur, Neutral, cur + text);
  }

  lemma LastToken(tok: Token, cur: string)
    requires tok.Legal(';')
    ensures Split(tok.Text(), Neutral, cur) == if tok.Dollared? then [] else NonEmpty(Trim(cur + tok.Kept()))
  {
    match tok
    case Plain(c) =>
    case Remark(body) =>
      CommentSplits(body, '\n', cur);
      TrimEnd(cur, '\n');
      assert cur + [] == cur;
    case Quoted(q, body) => LastQuoted(q, body, cur);
    case Dollared(tag, body) => LastDollared(tag, body, cur, tok.Fence(), tok.Text());
  }

  /** A token that something follows. */
  lemma TokenSplits(tok: Token, rest: string, cur: string)
    requires rest != [] && tok.Legal(rest[0])
    ensures Split(tok.Text() + rest, Neutral, cur) == Split(rest, Neutral, cur + tok.Kept())
  {
    var t := tok.Text() + rest;
    TokenWalk(tok, rest, cur);
    assert EndsIn(t, rest);
    WalkSplits(t, rest, Neutral, cur, Neutral, cur + tok.Kept());
  }

  ghost function LastQuery(toks: seq<Token>, cur: string): (q: seq<string>) {
    if toks == [] || toks[|toks| - 1].Dollared? then [] else NonEmpty(Trim(cur + KeptOf(toks)))
  }

  lemma {:induction false} TokensSplit(toks: seq<Token>, cur: string)
    requires AllLegal(toks)
    ensures Split(Texts(toks), Neutral, cur) == LastQuery(toks, cur)
    decreases |toks|
  {
    if |toks| == 1 {
      assert Texts(toks[1..]) == [] && Texts(toks) == toks[0].Text() && KeptOf(toks[1..]) == [];
      assert KeptOf(toks) == toks[0].Kept();
      LastToken(toks[0], cur);
    } else if |toks| > 1 {
      var rest, kept := Texts(toks[1..]), toks[0].Kept();
      assert toks[1..][|toks| - 2] == toks[|toks| - 1];
      TokenSplits(toks[0], rest, cur);
      TokensSplit(toks[1..], cur + kept);
      Regroup(cur, kept, KeptOf(toks[1..]));
    }
  }

  /** After a script of statements, each with its semicolon, a last statement without one is a further query: without
      line comments, and trimmed. If it ends in a dollar quote it is lost. */
  lemma LastSplits(items: seq<Item>, toks: seq<Token>)
    requires (forall i :: 0 <= i < |items| ==> items[i].Legal()) && AllLegal(toks)
    ensures Split(Script(items) + Texts(toks), Neutral, []) == AllQueries(items) + LastQuery(toks, [])
  {
    ItemsSplit(items, Texts(toks));
    TokensSplit(toks, []);
  }

  /** The last statement is among the queries exactly if it does not end in a dollar quote. */
  lemma LastFound(items: seq<Item>, toks: seq<Token>)
    requires (forall i :: 0 <= i < |items| ==> items[i].Legal()) && AllLegal(toks) && toks != []
    ensures Split(Script(items) + Texts(toks), Neutral, []) == AllQueries(items) + NonEmpty(Trim(KeptOf(toks)))
       <==> !toks[|toks| - 1].Dollared?
  {
    LastSplits(items, toks);
    assert [] + KeptOf(toks) == KeptOf(toks);
    if toks[|toks| - 1].Dollared? {
      KeptDollar(toks);
      TrimLeaves(KeptOf(toks));
      assert |AllQueries(items) + NonEmpty(Trim(KeptOf(toks)))| == |AllQueries(items)| + 1;
    }
  }

  lemma {:induction false} KeptDollar(toks: seq<Token>)
    requires toks != [] && toks[|toks| - 1].Dollared?
    ensures !Blank(KeptOf(toks))
    decreases |toks|
  {
    BlankJoined(toks[0].Kept(), KeptOf(toks[1..]));
    if |toks| == 1 {
      assert toks[0].Kept()[0] == '$';
    } else {
      assert toks[1..][|toks| - 2] == toks[|toks| - 1];
      KeptDollar(toks[1..]);
    }
  }

  // ---- a comment that the script ends in

  lemma {:induction false} TokensTaken(toks: seq<Token>, rest: string, cur: string)
    requires AllLegal(toks) && rest != [] && (toks != [] ==> toks[|toks| - 1].Legal(rest[0]))
    ensures Split(Texts(toks) + rest, Neutral, cur) == Split(rest, Neutral, cur + KeptOf(toks))
    decreases |toks|
  {
    if toks == [] {
      assert Texts(toks) + rest == rest && cur + KeptOf(toks) == cur;
    } else {
      var head, more, kept := toks[0].Text(), Texts(toks[1..]), toks[0].Kept();
      Regroup(head, more, rest);
      FollowedBy(toks, rest, more + rest);
      TokenSplits(toks[0], more + rest, cur);
      TokensTaken(toks[1..], rest, cur + kept);
      Regroup(cur, kept, KeptOf(toks[1..]));
    }
  }

  /** What the first token is followed by. */
  lemma FollowedBy(toks: seq<Token>, rest: string, more: string)
    requires toks != [] && AllLegal(toks) && rest != [] && toks[|toks| - 1].Legal(rest[0]) && more == Texts(toks[1..]) + rest
    ensures more != [] && toks[0].Legal(more[0]) && (|toks| > 1 ==> toks[1..][|toks| - 2] == toks[|toks| - 1])
  {
    if |toks| > 1 {
      assert more[0] == Texts(toks[1..])[0];
    } else {
      assert more == rest;
    }
  }

  /** A script that ends within a line comment: the last character of the comment, unless it is a semicolon, becomes
      part of the query. */
  lemma OpenComment(toks: seq<Token>, body: string, c: char)
    requires AllLegal(toks) && (toks != [] ==> toks[|toks| - 1] != Plain('-')) && '\n' !in body
    ensures Split(Texts(toks) + ("--" + (body + [c])), Neutral, [])
         == NonEmpty(Trim(if c != ';' then KeptOf(toks) + [c] else KeptOf(toks)))
  {
    LegalLast(toks);
    TokensTaken(toks, "--" + (body + [c]), []);
    assert [] + KeptOf(toks) == KeptOf(toks);
    CommentSplits(body, c, KeptOf(toks));
  }

  lemma {:induction false} LegalLast(toks: seq<Token>)
    requires AllLegal(toks)
    ensures toks != [] && toks[|toks| - 1] != Plain('-') ==> toks[|toks| - 1].Legal('-')
  {
    if |toks| == 1 {
      assert Texts(toks[1..]) == [];
    } else if |toks| > 1 {
      LegalLast(toks[1..]);
    }
  }

  // ---- examples

  /** "$$a$$" alone gives no query. */
  lemma DollarLost()
    ensures Split("$$a$$", Neutral, []) == []
  {
    var text := "$$" + ("a" + "$$");
    assert "$" + "" + "$" == "$$";
    assert ("a" + "$$")[0..][0] == 'a';
    LastDollared("", "a", [], "$$", text);
    assert text == "$$a$$";
  }

  lemma TrimNothing(s: string)
    requires Tidy(s)
    ensures Trim(s) == s
  {
    TrimOnly([], s, []);
    assert [] + s + [] == s;
  }

  /** A plain character before a comment. */
  lemma PlainFirst(s: string, c: char, rest: string)
    requires rest != [] && Plain(c).Legal(rest[0]) && s == [c] + rest
    ensures Split(s, Neutral, []) == Split(rest, Neutral, [c])
  {
    assert s[1..] == rest && [] + [c] == [c];
    QuietTurn(s, Neutral, [], Move(1, Neutral, [c], []), rest);
  }

  /** "1--x" gives the query "1x". */
  lemma CommentTaken()
    ensures Split("1--x", Neutral, []) == ["1x"]
  {
    var rest := "--" + ([] + ['x']);
    assert "1--x" == ['1'] + rest;
    PlainFirst("1--x", '1', rest);
    CommentSplits([], 'x', ['1']);
    assert ['1'] + ['x'] == "1x";
    TrimNothing("1x");
  }
}
