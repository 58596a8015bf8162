/** Splitting a script into queries (database_t::split_queries). */
module SplitQueries {
  import opened DecimalText

  // ---- text

  function TrimLeft(s: string): (r: string) {
    if s != [] && IsSpace(s[0]) then TrimLeft(s[1..]) else s
  }

  function TrimRight(s: string): (r: string) {
    if s != [] && IsSpace(s[|s| - 1]) then TrimRight(s[..|s| - 1]) else s
  }

  function Trim(s: string): (r: string) {
    TrimRight(TrimLeft(s))
  }

  /** A character of a query as the test for COPY sees it: newlines are spaces, case is ignored. */
  function Folded(c: char): (f: char) {
    if c == '\n' then ' ' else if 'A' <= c <= 'Z' then (c as int + 32) as char else c
  }

  predicate Matches(s: string, pattern: string) {
    |s| == |pattern| && forall i :: 0 <= i < |s| ==> Folded(s[i]) == pattern[i]
  }

  /** The query is COPY ... STDIN, so that data lines follow it. */
  predicate IsCopy(q: string) {
    |q| >= 6 && Matches(q[..5], "copy ") && Matches(q[|q| - 6..], " stdin")
  }

  // ---- the modes of the splitter

  datatype Mode = Neutral | Comment | Quote(q: char) | Dollar(tag: string) | Copy

  /** The modes the splitter can be in. */
  predicate Possible(m: Mode) {
    (m.Quote? ==> m.q == '\'' || m.q == '"') && (m.Dollar? ==> |m.tag| >= 2)
  }

  /** The dollar tag at the start of s: up to the next dollar sign, or to the end. */
  function TagOf(s: string): (tag: string)
    requires |s| >= 2
    ensures 2 <= |tag| <= |s| && tag == s[..|tag|]
  {
    if s[1] == '$' || |s| == 2 then s[..2] else [s[0]] + TagOf(s[1..])
  }

  /** The line that ends the data of a COPY. */
  predicate CopyEnds(s: string) {
    |s| >= 3 && (s[0] == '\n' || s[0] == '\r') && s[1] == '\\' && s[2] == '.'
  }

  function NonEmpty(q: string): (r: seq<string>) {
    if q == [] then [] else [q]
  }

  /** The mode after a query. */
  function ModeAfter(q: string): (m: Mode)
    ensures Possible(m)
  {
    if q != [] && IsCopy(q) then Copy else Neutral
  }

  /** One turn of the splitter: how many characters it takes, the mode and the query it leaves, and the
      queries it puts out. */
  datatype Move = Move(used: nat, mode: Mode, cur: string, out: seq<string>)

  /** The turn at the start of s, which is not the last character. */
  function Next(s: string, m: Mode, cur: string): (r: Move)
    requires |s| >= 2 && Possible(m)
    ensures 1 <= r.used <= |s| && Possible(r.mode)
  {
    match m
    case Comment => Move(1, if s[0] == '\n' then Neutral else Comment, cur, [])
    case Quote(q) =>
      if s[0] != q then Move(1, m, cur + [s[0]], [])
      else if s[1] != q then Move(1, Neutral, cur + [s[0]], [])
      else Move(2, m, cur + [s[0]] + [s[1]], [])
    case Dollar(tag) =>
      if s[0] == '$' && tag <= s then Move(|tag|, Neutral, cur + tag, []) else Move(1, m, cur + [s[0]], [])
    case Copy =>
      if CopyEnds(s) then Move(3, Neutral, [], [Trim(cur)]) else Move(1, Copy, cur + [s[0]], [])
    case Neutral =>
      if s[0] == '-' && s[1] == '-' then Move(1, Comment, cur, [])
      else if s[0] == '$' then Move(|TagOf(s)|, Dollar(TagOf(s)), cur + TagOf(s), [])
      else if s[0] == '\'' || s[0] == '"' then Move(1, Quote(s[0]), cur + [s[0]], [])
      else if s[0] == ';' then Move(1, ModeAfter(Trim(cur)), [], NonEmpty(Trim(cur)))
      else Move(1, Neutral, cur + [s[0]], [])
  }

  /** The queries found in the rest s of a script, in mode m, with the query cur begun. At the last
      character the mode no longer matters. */
  function Split(s: string, m: Mode, cur: string): (queries: seq<string>)
    requires Possible(m)
    decreases |s|
  {
    if s == [] then []
    else if |s| == 1 then NonEmpty(Trim(if s[0] != ';' then cur + s else cur))
    else
      var r := Next(s, m, cur);
      r.out + Split(s[r.used..], r.mode, r.cur)
  }

  // ---- the loop

  /** The flags of the loop and the tag of the current dollar quote. */
  datatype Flags = Flags(comment: bool, single: bool, double: bool, dollar: bool, copy: bool, tag: string) {
    /** The flags stand for mode m; at most one of them is set. */
    ghost predicate Is(m: Mode) {
      && Possible(m) && comment == m.Comment? && dollar == m.Dollar? && copy == m.Copy?
      && single == (m == Quote('\'')) && double == (m == Quote('"')) && (dollar ==> tag == m.tag)
    }
  }

  /** The tag from i on is not over at j. */
  ghost predicate TagGoesOn(sql: string, i: nat, j: nat, all: string) {
    i <= j < |sql| - 1 && all == sql[i..j] + TagOf(sql[j..])
  }

  /** The tag so far, and one more character. */
  lemma TagStep(sql: string, i: nat, j: nat, all: string)
    requires TagGoesOn(sql, i, j, all)
    ensures if sql[j + 1] == '$' || j + 2 == |sql| then all == sql[i..j + 2] else TagGoesOn(sql, i, j + 1, all)
  {
    assert sql[j..][1..] == sql[j + 1..];
  }

  /** Reads the dollar tag at i; returns the place of its last character. */
  method ReadTag(sql: string, i: nat) returns (tag: string, j: nat)
    requires i + 1 < |sql| && sql[i] == '$'
    ensures tag == TagOf(sql[i..]) && j == i + |tag| - 1
  {
    ghost var all := TagOf(sql[i..]);
    tag, j := "$", i;
    assert TagGoesOn(sql, i, j, all);
    while j < |sql| - 1
      invariant i <= j < |sql| && tag == sql[i..j + 1]
      invariant if j < |sql| - 1 then TagGoesOn(sql, i, j, all) else all == tag
    {
      TagStep(sql, i, j, all);
      j := j + 1;
      tag := tag + [sql[j]];
      assert tag == sql[i..j + 1];
      if sql[j] == '$' { break; }
    }
    assert tag == all;
  }

  /** The turn at i, inside a quote that the character q ends and, doubled, escapes. */
  method QuoteTurn(sql: string, i: nat, q: char, cur: string) returns (j: nat, cur': string, open: bool)
    requires i + 1 < |sql| && Possible(Quote(q))
    ensures j >= i && Next(sql[i..], Quote(q), cur) == Move(j + 1 - i, if open then Quote(q) else Neutral, cur', [])
  {
    j, cur', open := i, cur + [sql[i]], true;
    if sql[i] == q {
      if sql[i + 1] != q {
        open := false;
      } else {
        cur' := cur' + [sql[i + 1]];
        j := i + 1;
      }
    }
  }

  /** The turn at i while a flag is set; j is the last character it takes. */
  method InnerTurn(sql: string, i: nat, f: Flags, cur: string, ghost m: Mode)
    returns (j: nat, f': Flags, cur': string, out: seq<string>)
    requires i + 1 < |sql| && f.Is(m) && m != Neutral
    ensures var r := Next(sql[i..], m, cur); j + 1 == i + r.used && f'.Is(r.mode) && cur' == r.cur && out == r.out
  {
    j, f', cur', out := i, f, cur, [];
    var c := sql[i];
    if f.comment {
      if c == '\n' { f' := f.(comment := false); }
    } else if f.single {
      var open;
      j, cur', open := QuoteTurn(sql, i, '\'', cur);
      f' := f.(single := open);
    } else if f.double {
      var open;
      j, cur', open := QuoteTurn(sql, i, '"', cur);
      f' := f.(double := open);
    } else if f.dollar {
      if c == '$' && f.tag <= sql[i..] {
        cur', j, f' := cur + f.tag, i + |f.tag| - 1, f.(dollar := false);
      } else {
        cur' := cur + [c];
      }
    } else if (c == '\n' || c == '\r') && sql[i + 1] == '\\' && i < |sql| - 2 && sql[i + 2] == '.' {
      out, cur', j, f' := [Trim(cur)], "", i + 2, f.(copy := false);
    } else {
      cur' := cur + [c];
    }
  }

  /** The turn at i while no flag is set. */
  method NeutralTurn(sql: string, i: nat, f: Flags, cur: string)
    returns (j: nat, f': Flags, cur': string, out: seq<string>)
    requires i + 1 < |sql| && f.Is(Neutral)
    ensures var r := Next(sql[i..], Neutral, cur); j + 1 == i + r.used && f'.Is(r.mode) && cur' == r.cur && out == r.out
  {
    j, f', cur', out := i, f, cur, [];
    var c := sql[i];
    if c == '-' && sql[i + 1] == '-' {
      f' := f.(comment := true);
    } else if c == '$' {
      var tag;
      tag, j := ReadTag(sql, i);
      cur', f' := cur + tag, f.(dollar := true, tag := tag);
    } else if c == '\'' {
      cur', f' := cur + [c], f.(single := true);
    } else if c == '"' {
      cur', f' := cur + [c], f.(double := true);
    } else if c == ';' {
      var q := Trim(cur);
      if |q| > 0 {
        if IsCopy(q) { f' := f.(copy := true); }
        out := [q];
      }
      cur' := "";
    } else {
      cur' := cur + [c];
    }
  }

  lemma Unfolded(sql: string, i: nat, m: Mode, cur: string, queries: seq<string>, r: Move, next: nat)
    requires i + 1 < |sql| && Possible(m) && r == Next(sql[i..], m, cur) && next == i + r.used
    ensures queries + Split(sql[i..], m, cur) == queries + r.out + Split(sql[next..], r.mode, r.cur)
  {
    assert sql[i..][r.used..] == sql[next..];
  }

  /** Splits a script into its queries. */
  method SplitScript(sql: string) returns (queries: seq<string>)
    ensures queries == Split(sql, Neutral, [])
  {
    var cur, f := "", Flags(false, false, false, false, false, "");
    ghost var m, all := Neutral, Split(sql, Neutral, []);
    queries := [];
    var i := 0;
    assert sql[0..] == sql;
    while i < |sql|
      invariant 0 <= i <= |sql| && f.Is(m)
      invariant queries + Split(sql[i..], m, cur) == all
    {
      if i == |sql| - 1 {
        assert sql[i..] == [sql[i]];
        if sql[i] != ';' { cur := cur + [sql[i]]; }
        cur := Trim(cur);
        if |cur| > 0 { queries := queries + [cur]; }
        return;
      }
      ghost var r := Next(sql[i..], m, cur);
      ghost var next := i + r.used;
      Unfolded(sql, i, m, cur, queries, r, next);
      var out;
      if f.comment || f.single || f.double || f.dollar || f.copy {
        i, f, cur, out := InnerTurn(sql, i, f, cur, m);
      } else {
        i, f, cur, out := NeutralTurn(sql, i, f, cur);
      }
      queries, i, m := queries + out, i + 1, r.mode;
      assert i == next && cur == r.cur && out == r.out;
    }
  }
}
