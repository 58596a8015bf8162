/** What the splitter finds in scripts made of whole statements. */
module SplitTheorem {
  import opened Basics
  import opened DecimalText
  import opened SplitQueries

  // ---- one statement

  /** Scans the text of a statement that a semicolon follows. If the scan ends in neutral mode at the end
      of t, having met no semicolon in that mode, the result is the text without its line comments. */
  ghost function Scan(t: string, m: Mode, cur: string): (r: Option<string>)
    requires Possible(m)
    decreases |t|
  {
    if t == [] then if m == Neutral then Some(cur) else None
    else if m == Copy || (m == Neutral && t[0] == ';') then None
    else
      var r := Next(t + ";", m, cur);
      if r.used > |t| then None else Scan(t[r.used..], r.mode, r.cur)
  }

  lemma {:induction false} TagLocal(u: string, rest: string)
    requires |u| >= 2 && |TagOf(u)| < |u|
    ensures TagOf(u + rest) == TagOf(u)
  {
    if u[1] != '$' {
      assert (u + rest)[1..] == u[1..] + rest;
      TagLocal(u[1..], rest);
    }
  }

  /** A text shorter than the tag cannot end a dollar quote. */
  lemma {:induction false} DollarStuck(t: string, tag: string, cur: string)
    requires 2 <= |tag| && |t| < |tag|
    ensures Scan(t, Dollar(tag), cur) == None
    decreases |t|
  {
    if t != [] { DollarStuck(t[1..], tag, cur + [t[0]]); }
  }

  /** A turn within a statement does not depend on what follows its semicolon. */
  lemma NextLocal(t: string, rest: string, m: Mode, cur: string)
    requires t != [] && Possible(m) && Scan(t, m, cur).Some?
    ensures var r := Next(t + ";", m, cur); r.used <= |t| && r.out == [] && Next(t + ";" + rest, m, cur) == r
  {
    var u := t + ";";
    assert (u + rest)[0] == u[0] && (u + rest)[1] == u[1];
    if m == Neutral && t[0] == '$' {
      TagLocal(u, rest);
    } else if m.Dollar? && |m.tag| > |t| {
      DollarStuck(t, m.tag, cur);
    } else if m.Dollar? {
      assert u[..|m.tag|] == (u + rest)[..|m.tag|];
    }
  }

  /** One turn of the splitter that puts out nothing. */
  lemma QuietTurn(s: string, m: Mode, cur: string, r: Move, rest: string)
    requires |s| >= 2 && Possible(m) && Next(s, m, cur) == r && r.out == [] && s[r.used..] == rest
    ensures Split(s, m, cur) == Split(rest, r.mode, r.cur)
  {
  }

  lemma Tail(t: string, k: nat, rest: string)
    requires k <= |t|
    ensures (t + ";" + rest)[k..] == t[k..] + ";" + rest
  {
  }

  /** Splitting a script from inside a statement reaches the semicolon with the statement scanned. */
  lemma {:induction false} ScanSplits(t: string, rest: string, m: Mode, cur: string)
    requires Possible(m) && Scan(t, m, cur).Some?
    ensures Split(t + ";" + rest, m, cur) == Split(";" + rest, Neutral, Scan(t, m, cur).value)
    decreases |t|
  {
    if t == [] {
      assert t + ";" + rest == ";" + rest;
    } else {
      var r := Next(t + ";", m, cur);
      var t' := t[r.used..];
      NextLocal(t, rest, m, cur);
      Tail(t, r.used, rest);
      QuietTurn(t + ";" + rest, m, cur, r, t' + ";" + rest);
      assert Scan(t, m, cur) == Scan(t', r.mode, r.cur);
      ScanSplits(t', rest, r.mode, r.cur);
    }
  }

  // ---- scripts

  /** A statement with its semicolon; after COPY ... STDIN also the data lines and the line "\." that
      ends them. */
  datatype Item = Query(text: string) | CopyData(text: string, data: string, eol: char) {
    ghost predicate Legal() {
      && Scan(text, Neutral, []).Some?
      && CopyData? == IsCopy(Kept())
      && (CopyData? ==> (eol == '\n' || eol == '\r') && NoEarlierEnd(data, End()))
    }

    ghost function Kept(): (s: string)
      requires Scan(text, Neutral, []).Some?
    {
      Trim(Scan(text, Neutral, []).value)
    }

    ghost function End(): (s: string)
      requires CopyData?
      ensures |s| == 3
    {
      [eol] + "\\."
    }

    ghost function Text(): (s: string) {
      if Query? then text + ";" else text + ";" + (data + End())
    }

    /** The queries an item stands for: none for a blank statement; the data of a COPY is one more. */
    ghost function Queries(): (q: seq<string>)
      requires Legal()
    {
      if Query? then NonEmpty(Kept()) else [Kept(), Trim(data)]
    }
  }

  /** No line within the data, its end included, begins with a backslash and a dot. */
  ghost predicate NoEarlierEnd(data: string, end: string) {
    forall k :: 0 <= k < |data| ==> !("\n\\." <= (data + end)[k..]) && !("\r\\." <= (data + end)[k..])
  }

  lemma EndLine(s: string)
    ensures CopyEnds(s) <==> "\n\\." <= s || "\r\\." <= s
  {
    if |s| >= 3 { assert s[..3] == [s[0], s[1], s[2]]; }
  }

  /** Data lines are taken up to the line that ends them. */
  lemma {:induction false} CopySplits(data: string, end: string, rest: string, cur: string)
    requires |end| == 3 && CopyEnds(end) && NoEarlierEnd(data, end)
    ensures Split(data + end + rest, Copy, cur) == [Trim(cur + data)] + Split(rest, Neutral, [])
    decreases |data|
  {
    var s := data + end + rest;
    if data == [] {
      assert s[3..] == rest && cur + data == cur && CopyEnds(s);
    } else {
      EndLine((data + end)[0..]);
      assert !CopyEnds((data + end)[0..]);
      assert CopyEnds(s) ==> CopyEnds((data + end)[0..]);
      assert s[1..] == data[1..] + end + rest;
      assert forall k :: 0 <= k < |data[1..]| ==> (data[1..] + end)[k..] == (data + end)[k + 1..];
      CopySplits(data[1..], end, rest, cur + [data[0]]);
      assert cur + [data[0]] + data[1..] == cur + data;
    }
  }

  lemma QuerySplits(text: string, rest: string, c: string)
    requires Scan(text, Neutral, []) == Some(c) && !IsCopy(Trim(c))
    ensures Split(text + ";" + rest, Neutral, []) == NonEmpty(Trim(c)) + Split(rest, Neutral, [])
  {
    ScanSplits(text, rest, Neutral, []);
    SemicolonSplits(rest, c);
  }

  lemma CopyItemSplits(text: string, data: string, end: string, rest: string, c: string)
    requires Scan(text, Neutral, []) == Some(c) && IsCopy(Trim(c))
    requires |end| == 3 && CopyEnds(end) && NoEarlierEnd(data, end)
    ensures Split(text + ";" + (data + end + rest), Neutral, []) == [Trim(c), Trim(data)] + Split(rest, Neutral, [])
  {
    ScanSplits(text, data + end + rest, Neutral, []);
    SemicolonSplits(data + end + rest, c);
    CopySplits(data, end, rest, []);
    assert [] + data == data;
    Regroup([Trim(c)], [Trim(data)], Split(rest, Neutral, []));
    assert [Trim(c)] + [Trim(data)] == [Trim(c), Trim(data)];
  }

  /** An item at the start of a script yields its queries. */
  lemma ItemSplits(item: Item, rest: string)
    requires item.Legal()
    ensures Split(item.Text() + rest, Neutral, []) == item.Queries() + Split(rest, Neutral, [])
  {
    var c := Scan(item.text, Neutral, []).value;
    if item.Query? {
      QuerySplits(item.text, rest, c);
    } else {
      assert item.Text() + rest == item.text + ";" + (item.data + item.End() + rest);
      CopyItemSplits(item.text, item.data, item.End(), rest, c);
    }
  }

  lemma SemicolonSplits(after: string, c: string)
    ensures after == [] || !IsCopy(Trim(c)) ==>
      Split(";" + after, Neutral, c) == NonEmpty(Trim(c)) + Split(after, Neutral, [])
    ensures after != [] && IsCopy(Trim(c)) ==>
      Split(";" + after, Neutral, c) == [Trim(c)] + Split(after, Copy, [])
  {
    assert (";" + after)[1..] == after;
  }

  ghost function Script(items: seq<Item>): (s: string) {
    if items == [] then [] else items[0].Text() + Script(items[1..])
  }

  ghost function AllQueries(items: seq<Item>): (q: seq<string>)
    requires forall i :: 0 <= i < |items| ==> items[i].Legal()
  {
    if items == [] then [] else items[0].Queries() + AllQueries(items[1..])
  }

  ghost predicate Blank(s: string) {
    forall i :: 0 <= i < |s| ==> IsSpace(s[i])
  }

  lemma {:induction false} TrimBlank(s: string)
    requires Blank(s)
    ensures Trim(s) == []
  {
    if s != [] {
      TrimBlank(s[1..]);
      assert TrimLeft(s) == TrimLeft(s[1..]);
    }
  }

  lemma {:induction false} BlankSplits(tail: string, cur: string)
    requires Blank(tail) && Blank(cur)
    ensures Split(tail, Neutral, cur) == []
    decreases |tail|
  {
    if |tail| == 1 {
      TrimBlank(cur + tail);
    } else if |tail| > 1 {
      BlankSplits(tail[1..], cur + [tail[0]]);
    }
  }

  /** Statements, each with its semicolon, yield their queries, whatever follows. */
  lemma {:induction false} ItemsSplit(items: seq<Item>, rest: string)
    requires forall i :: 0 <= i < |items| ==> items[i].Legal()
    ensures Split(Script(items) + rest, Neutral, []) == AllQueries(items) + Split(rest, Neutral, [])
  {
    if items == [] {
      assert Script(items) + rest == rest;
    } else {
      var more := Script(items[1..]) + rest;
      Regroup(items[0].Text(), Script(items[1..]), rest);
      ItemSplits(items[0], more);
      ItemsSplit(items[1..], rest);
      Regroup(items[0].Queries(), AllQueries(items[1..]), Split(rest, Neutral, []));
    }
  }

  /** A script of statements, each with its semicolon, and blanks at the end splits into exactly the
      statements, in order: without line comments, trimmed, and without the blank ones. */
  lemma ScriptSplits(items: seq<Item>, tail: string)
    requires (forall i :: 0 <= i < |items| ==> items[i].Legal()) && Blank(tail)
    ensures Split(Script(items) + tail, Neutral, []) == AllQueries(items)
  {
    ItemsSplit(items, tail);
    BlankSplits(tail, []);
  }
}
