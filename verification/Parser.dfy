/**
  The token cursor of the SQL parser: it steps over whitespace and comments, and
  every helper acts as on the significant tokens alone.
*/
module Parser {
  import opened Basics
  import opened Tokens

  type Keyword = string

  predicate Significant(t: Token) {
    !t.Whitespace? && !t.Comment?
  }

  /** The tokens that are neither whitespace nor comments. */
  function Sig(toks: seq<Token>): (r: seq<Token>) {
    if toks == [] then []
    else if Significant(toks[0]) then [toks[0]] + Sig(toks[1..])
    else Sig(toks[1..])
  }

  lemma {:induction false} SigAppend(a: seq<Token>, b: seq<Token>)
    ensures Sig(a + b) == Sig(a) + Sig(b)
  {
    if a == [] {
      assert a + b == b;
    } else {
      assert (a + b)[1..] == a[1..] + b;
      SigAppend(a[1..], b);
    }
  }

  /** Whitespace and comments are all that is left out. */
  lemma {:induction false} SigKeeps(toks: seq<Token>, t: Token)
    ensures t in Sig(toks) <==> t in toks && !t.Whitespace? && !t.Comment?
  {
    if toks != [] {
      SigKeeps(toks[1..], t);
      assert toks == [toks[0]] + toks[1..];
    }
  }

  lemma SigBetween(toks: seq<Token>, i: nat, j: nat)
    requires i <= j <= |toks|
    ensures Sig(toks[i..]) == Sig(toks[i..j]) + Sig(toks[j..])
  {
    assert toks[i..] == toks[i..j] + toks[j..];
    SigAppend(toks[i..j], toks[j..]);
  }

  /** One step of the cursor over raw tokens. */
  lemma SigStep(toks: seq<Token>, i: nat)
    requires i < |toks|
    ensures Sig(toks[i..]) == if Significant(toks[i]) then [toks[i]] + Sig(toks[i + 1..]) else Sig(toks[i + 1..])
  {
    assert toks[i..][1..] == toks[i + 1..];
  }

  // ---- Statements between semicolons, items between commas ----

  const SEMI: Token := Fixed(SemiColon)
  const COMMA: Token := Fixed(Comma)

  function Semis(n: nat): (ts: seq<Token>) {
    seq(n, _ => SEMI)
  }

  /** Semicolons, a statement, semicolons, a statement, …, semicolons. */
  function Weave(gaps: seq<nat>, stmts: seq<seq<Token>>): (ts: seq<Token>)
    requires |gaps| == |stmts| + 1
  {
    var n := |stmts|;
    if n == 0 then Semis(gaps[0])
    else Weave(gaps[..n], stmts[..n - 1]) + stmts[n - 1] + Semis(gaps[n])
  }

  /** At least one semicolon between neighbours. */
  predicate Separated(gaps: seq<nat>) {
    forall i :: 0 < i < |gaps| - 1 ==> gaps[i] >= 1
  }

  /** A statement came last, with no semicolon behind it. */
  predicate NeedsSemi(gaps: seq<nat>) {
    |gaps| > 1 && gaps[|gaps| - 1] == 0
  }

  lemma WeaveSemi(gaps: seq<nat>, stmts: seq<seq<Token>>, before: seq<Token>, after: seq<Token>)
    requires |gaps| == |stmts| + 1 && before == [SEMI] + after
    ensures var n := |stmts|; Weave(gaps[n := gaps[n] + 1], stmts) + after == Weave(gaps, stmts) + before
  {
    var n := |stmts|;
    var gaps' := gaps[n := gaps[n] + 1];
    assert gaps'[..n] == gaps[..n];
    assert Semis(gaps[n] + 1) == Semis(gaps[n]) + [SEMI];
    assert Weave(gaps', stmts) == Weave(gaps, stmts) + [SEMI];
  }

  lemma WeaveStatement(gaps: seq<nat>, stmts: seq<seq<Token>>, stmt: seq<Token>, before: seq<Token>, after: seq<Token>)
    requires |gaps| == |stmts| + 1 && before == stmt + after && Separated(gaps) && !NeedsSemi(gaps)
    ensures Weave(gaps + [0], stmts + [stmt]) + after == Weave(gaps, stmts) + before
    ensures Separated(gaps + [0]) && NeedsSemi(gaps + [0])
  {
    var n := |stmts| + 1;
    assert (gaps + [0])[..n] == gaps && (stmts + [stmt])[..n - 1] == stmts;
    assert Semis(0) == [];
    Assoc(Weave(gaps, stmts), stmt, after);
  }

  /** Items with a comma between any two neighbours. */
  function Joined(items: seq<seq<Token>>): (ts: seq<Token>) {
    if items == [] then []
    else if |items| == 1 then items[0]
    else Joined(items[..|items| - 1]) + [COMMA] + items[|items| - 1]
  }

  /** The items, and the comma after which another one has to come. */
  function Opened(items: seq<seq<Token>>): (ts: seq<Token>) {
    if items == [] then [] else Joined(items) + [COMMA]
  }

  function Trailing(comma: bool): (ts: seq<Token>) {
    if comma then [COMMA] else []
  }

  lemma OpenedItem(items: seq<seq<Token>>, item: seq<Token>, before: seq<Token>, after: seq<Token>)
    requires before == item + after
    ensures Joined(items + [item]) + after == Opened(items) + before
  {
    if items == [] {
      assert items + [item] == [item];
    } else {
      assert (items + [item])[..|items|] == items;
    }
  }

  /** Everything behind an empty list of statements or items is still to come. */
  lemma WeaveNothing(ts: seq<Token>)
    ensures Weave([0], []) + ts == ts
  {
    assert Semis(0) + ts == ts;
  }

  /** What a sub-parser does with the raw tokens in front of it: it takes some
      of them and succeeds or fails. */
  datatype Attempt = Attempt(ok: bool, taken: nat)

  type SubParser = seq<Token> -> Attempt

  ghost predicate StaysInside(f: SubParser) {
    forall toks :: f(toks).taken <= |toks|
  }

  /** A statement parser that succeeds has taken at least one significant token. */
  ghost predicate Progresses(f: SubParser) {
    forall toks :: f(toks).ok ==> f(toks).taken <= |toks| && Sig(toks[..f(toks).taken]) != []
  }

  /** The significant tokens the sub-parser takes when it starts at `at`. */
  ghost function TakenFrom(f: SubParser, toks: seq<Token>, at: nat): (ts: seq<Token>)
    requires at <= |toks| && StaysInside(f)
  {
    Sig(toks[at..at + f(toks[at..]).taken])
  }

  /** The sub-parser succeeds at every start, and takes the listed items there. */
  ghost predicate TakesAll(f: SubParser, toks: seq<Token>, starts: seq<nat>, items: seq<seq<Token>>)
    requires StaysInside(f)
  {
    && |starts| == |items|
    && forall i :: 0 <= i < |starts| ==> starts[i] <= |toks| && f(toks[starts[i]..]).ok && items[i] == TakenFrom(f, toks, starts[i])
  }

  lemma TakesOneMore(f: SubParser, toks: seq<Token>, starts: seq<nat>, items: seq<seq<Token>>, start: nat)
    requires StaysInside(f) && TakesAll(f, toks, starts, items) && start <= |toks| && f(toks[start..]).ok
    ensures TakesAll(f, toks, starts + [start], items + [TakenFrom(f, toks, start)])
  {
  }

  /** What a statement parser takes is no longer to come. */
  lemma TakenIsGone(f: SubParser, toks: seq<Token>, start: nat)
    requires StaysInside(f) && start <= |toks|
    ensures var next := start + f(toks[start..]).taken;
            && Sig(toks[start..]) == TakenFrom(f, toks, start) + Sig(toks[next..])
            && (Progresses(f) && f(toks[start..]).ok ==> |Sig(toks[next..])| < |Sig(toks[start..])|)
  {
    var next := start + f(toks[start..]).taken;
    SigBetween(toks, start, next);
    assert toks[start..][..next - start] == toks[start..next];
  }

  class Parser {
    const toks: seq<Token>
    const keywordOf: Token -> Option<Keyword>
    var idx: nat

    constructor (toks: seq<Token>, keywordOf: Token -> Option<Keyword>)
      ensures Valid() && this.toks == toks && idx == 0
    {
      this.toks, this.keywordOf, idx := toks, keywordOf, 0;
    }

    ghost predicate Valid()
      reads this
    {
      idx <= |toks|
    }

    /** The significant tokens that are left. */
    ghost function Rest(): (r: seq<Token>)
      reads this
      requires Valid()
    {
      Sig(toks[idx..])
    }

    method Next() returns (t: Option<Token>)
      requires Valid()
      modifies this
      ensures Valid() && idx >= old(idx)
      ensures if old(Rest()) == [] then t == None && Rest() == []
              else t == Some(old(Rest())[0]) && Rest() == old(Rest())[1..] && idx > old(idx)
    {
      while true
        invariant Valid() && Rest() == old(Rest()) && idx >= old(idx)
        decreases |toks| - idx
      {
        if idx >= |toks| {
          return None;
        }
        SigStep(toks, idx);
        var tok := toks[idx];
        idx := idx + 1;
        if tok.Whitespace? || tok.Comment? {
          continue;
        }
        return Some(tok);
      }
    }

    /** Looking ahead gives what that many calls of `Next` would give. */
    method PeekNth(n: nat) returns (t: Option<Token>)
      requires Valid()
      ensures t == if n < |Rest()| then Some(Rest()[n]) else None
    {
      var i, left := idx, n;
      while true
        invariant i <= |toks| && 0 <= left <= n && n - left <= |Rest()|
        invariant Rest()[n - left..] == Sig(toks[i..])
        decreases |toks| - i
      {
        if i >= |toks| {
          return None;
        }
        SigStep(toks, i);
        var tok := toks[i];
        i := i + 1;
        if tok.Whitespace? || tok.Comment? {
          continue;
        }
        if left == 0 {
          return Some(tok);
        }
        assert Rest()[n - left..][1..] == Rest()[n - left + 1..];
        left := left - 1;
      }
    }

    method Peek() returns (t: Option<Token>)
      requires Valid()
      ensures t == if Rest() != [] then Some(Rest()[0]) else None
    {
      t := PeekNth(0);
    }

    /** Consumes the next token if it is the expected one. */
    method ConsumeToken(expected: Token) returns (ok: bool)
      requires Valid()
      modifies this
      ensures Valid() && idx >= old(idx)
      ensures ok <==> old(Rest()) != [] && old(Rest())[0] == expected
      ensures if ok then Rest() == old(Rest())[1..] && idx > old(idx) else idx == old(idx)
    {
      var tok := Peek();
      if tok.None? {
        return false;
      }
      if tok.value == expected {
        var _ := Next();
        return true;
      }
      ok := false;
    }

    method ParseKeyword(keyword: Keyword) returns (ok: bool)
      requires Valid()
      modifies this
      ensures Valid() && idx >= old(idx)
      ensures ok <==> old(Rest()) != [] && keywordOf(old(Rest())[0]) == Some(keyword)
      ensures if ok then Rest() == old(Rest())[1..] else idx == old(idx)
    {
      var start := idx;
      var tok := Next();
      if tok.Some? && keywordOf(tok.value) == Some(keyword) {
        return true;
      }
      idx := start;
      ok := false;
    }

    /** All keywords in order or none: a mismatch gives back what was read. */
    method ParseKeywordSequence(keywords: seq<Keyword>) returns (ok: bool)
      requires Valid()
      modifies this
      ensures Valid() && idx >= old(idx)
      ensures ok <==> |keywords| <= |old(Rest())| && MatchKeywords(keywords, old(Rest()), |keywords|)
      ensures if ok then Rest() == old(Rest())[|keywords|..] else idx == old(idx)
    {
      var start := idx;
      for k := 0 to |keywords|
        invariant Valid() && idx >= old(idx)
        invariant k <= |old(Rest())| && MatchKeywords(keywords, old(Rest()), k) && Rest() == old(Rest())[k..]
      {
        var tok := Next();
        if tok.None? || keywordOf(tok.value) != Some(keywords[k]) {
          idx := start;
          return false;
        }
      }
      ok := true;
    }

    ghost predicate MatchKeywords(keywords: seq<Keyword>, ts: seq<Token>, n: nat)
      requires n <= |keywords| && n <= |ts|
    {
      forall i :: 0 <= i < n ==> keywordOf(ts[i]) == Some(keywords[i])
    }

    /** The first of the keywords that the next token is. At the end of the
        input the cursor may move over trailing whitespace, nothing else. */
    method ParseOneOfKeywords(keywords: seq<Keyword>) returns (r: Option<Keyword>)
      requires Valid()
      modifies this
      ensures Valid() && idx >= old(idx)
      ensures r.Some? <==> old(Rest()) != [] && exists i :: 0 <= i < |keywords| && keywordOf(old(Rest())[0]) == Some(keywords[i])
      ensures r.Some? ==> keywordOf(old(Rest())[0]) == r
      ensures Rest() == if r.Some? then old(Rest())[1..] else old(Rest())
    {
      var start := idx;
      var tok := Next();
      if tok.None? {
        return None;
      }
      for k := 0 to |keywords|
        invariant forall i :: 0 <= i < k ==> keywordOf(tok.value) != Some(keywords[i])
      {
        if keywordOf(tok.value) == Some(keywords[k]) {
          return Some(keywords[k]);
        }
      }
      idx := start;
      r := None;
    }

    /** Runs a sub-parser; the cursor is where it left it. */
    method Call(f: SubParser) returns (ok: bool)
      requires Valid() && StaysInside(f)
      modifies this
      ensures Valid() && idx >= old(idx)
      ensures ok == f(toks[old(idx)..]).ok
      ensures old(Rest()) == TakenFrom(f, toks, old(idx)) + Rest()
      ensures Progresses(f) && ok ==> |Rest()| < |old(Rest())|
    {
      var r := f(toks[idx..]);
      TakenIsGone(f, toks, idx);
      idx := idx + r.taken;
      ok := r.ok;
    }

    /** A failed attempt leaves no trace. */
    method MaybeParse(f: SubParser) returns (ok: bool)
      requires Valid() && StaysInside(f)
      modifies this
      ensures Valid() && idx >= old(idx) && ok == f(toks[old(idx)..]).ok
      ensures if ok then old(Rest()) == TakenFrom(f, toks, old(idx)) + Rest() else idx == old(idx)
    {
      var start := idx;
      ok := Call(f);
      if !ok {
        idx := start;
      }
    }

    /** Consumes the expected token or fails without moving. */
    method ExpectToken(expected: Token) returns (ok: bool)
      requires Valid()
      modifies this
      ensures Valid() && idx >= old(idx)
      ensures ok <==> [expected] <= old(Rest())
      ensures if ok then Rest() == old(Rest())[1..] else idx == old(idx)
    {
      ok := ConsumeToken(expected);
    }

    /** The next token if it is a keyword; otherwise nothing moves. */
    method NextKeyword() returns (r: Option<Keyword>)
      requires Valid()
      modifies this
      ensures Valid() && idx >= old(idx)
      ensures r == if old(Rest()) == [] then None else keywordOf(old(Rest())[0])
      ensures if r.Some? then Rest() == old(Rest())[1..] else idx == old(idx)
    {
      var tok := Peek();
      if tok.None? || keywordOf(tok.value).None? {
        return None;
      }
      var _ := Next();
      r := keywordOf(tok.value);
    }

    predicate IsReserved(t: Token, reserved: Keyword -> bool) {
      keywordOf(t).Some? && reserved(keywordOf(t).value)
    }

    predicate EndsList(t: Token, reserved: Keyword -> bool) {
      t in [Fixed(RightParen), SEMI, Fixed(RightBrace), Fixed(RightBracket)] || IsReserved(t, reserved)
    }

    /** One or more items with a comma between neighbours, and perhaps one behind
        the last if the input ends there or what follows is a closing parenthesis,
        brace or bracket, a semicolon or a reserved keyword. It fails only where none
        of these follows a comma, or at the start, and the sub-parser refuses. */
    method ParseCommaSeparated(f: SubParser, reserved: Keyword -> bool)
      returns (ok: bool, starts: seq<nat>, ghost items: seq<seq<Token>>, ghost trailing: bool, ghost at: nat)
      requires Valid() && StaysInside(f)
      modifies this
      ensures Valid() && idx >= old(idx) && TakesAll(f, toks, starts, items)
      ensures ok ==> items != [] && old(Rest()) == Joined(items) + Trailing(trailing) + Rest()
      ensures ok && Rest() != [] ==>
                var t := Rest()[0];
                if trailing then t in [Fixed(RightParen), Fixed(SemiColon), Fixed(RightBrace), Fixed(RightBracket)] || IsReserved(t, reserved)
                else t != Fixed(Comma)
      ensures !ok ==> at <= |toks| && old(Rest()) == Opened(items) + Sig(toks[at..]) && !f(toks[at..]).ok
      ensures !ok && items != [] ==>
                && Sig(toks[at..]) != [] && var t := Sig(toks[at..])[0];
                t !in [Fixed(RightParen), Fixed(SemiColon), Fixed(RightBrace), Fixed(RightBracket)] && !IsReserved(t, reserved)
    {
      starts, items, trailing, at := [], [], false, idx;
      ghost var all := Rest();
      assert Opened([]) + all == all;
      while true
        invariant Valid() && idx >= old(idx) && TakesAll(f, toks, starts, items)
        invariant all == old(Rest()) == Opened(items) + Rest()
        invariant items != [] ==> Rest() != [] && !EndsList(Rest()[0], reserved)
        decreases |toks| - idx
      {
        at := idx;
        var start := idx;
        ok, items := ParseItem(f, starts, items, all);
        if !ok {
          return;
        }
        starts := starts + [start];
        var more;
        more, trailing := MoreItems(reserved, items, all);
        if !more {
          return;
        }
      }
    }

    /** One item of a list. */
    method ParseItem(f: SubParser, ghost starts: seq<nat>, ghost items: seq<seq<Token>>, ghost all: seq<Token>)
      returns (ok: bool, ghost items': seq<seq<Token>>)
      requires Valid() && StaysInside(f) && TakesAll(f, toks, starts, items) && all == Opened(items) + Rest()
      modifies this
      ensures Valid() && idx >= old(idx) && ok == f(toks[old(idx)..]).ok
      ensures !ok ==> items' == items
      ensures ok ==> items' != [] && TakesAll(f, toks, starts + [old(idx)], items') && all == Joined(items') + Rest()
    {
      ghost var start, rest := idx, Rest();
      ok := Call(f);
      items' := items;
      if ok {
        OpenedItem(items, TakenFrom(f, toks, start), rest, Rest());
        TakesOneMore(f, toks, starts, items, start);
        items' := items + [TakenFrom(f, toks, start)];
      }
    }

    /** Whether a comma follows, and behind it another item. */
    method MoreItems(reserved: Keyword -> bool, ghost items: seq<seq<Token>>, ghost all: seq<Token>)
      returns (more: bool, ghost trailing: bool)
      requires Valid() && items != [] && all == Joined(items) + Rest()
      modifies this
      ensures Valid() && idx >= old(idx)
      ensures more ==> idx > old(idx) && all == Opened(items) + Rest() && Rest() != [] && !EndsList(Rest()[0], reserved)
      ensures !more ==> all == Joined(items) + Trailing(trailing) + Rest() && ListEnds(trailing, reserved)
    {
      ghost var rest := Rest();
      var comma := ConsumeToken(COMMA);
      if !comma {
        assert Joined(items) + [] == Joined(items);
        return false, false;
      }
      assert rest == [COMMA] + Rest();
      assert Joined(items) + rest == Joined(items) + [COMMA] + Rest();
      var tok := Peek();
      more, trailing := tok.Some? && !EndsList(tok.value, reserved), true;
    }

    ghost predicate ListEnds(trailing: bool, reserved: Keyword -> bool)
      reads this
      requires Valid()
    {
      Rest() == [] || if trailing then EndsList(Rest()[0], reserved) else Rest()[0] != COMMA
    }

    /** The statements of a script. If it succeeds, the significant tokens are
        exactly the statements with semicolons around them, at least one between
        neighbours. It fails only in front of a token that is no semicolon, where
        one is missing or the statement parser refuses. */
    method ParseStatements(f: SubParser)
      returns (ok: bool, starts: seq<nat>, ghost gaps: seq<nat>, ghost stmts: seq<seq<Token>>, ghost at: nat)
      requires Valid() && StaysInside(f) && Progresses(f)
      modifies this
      ensures Valid() && TakesAll(f, toks, starts, stmts) && |gaps| == |stmts| + 1 && Separated(gaps)
      ensures ok ==> Rest() == [] && old(Rest()) == Weave(gaps, stmts)
      ensures !ok ==> at < |toks| && old(Rest()) == Weave(gaps, stmts) + Sig(toks[at..])
      ensures !ok ==> Sig(toks[at..]) != [] && Sig(toks[at..])[0] != SEMI
      ensures !ok ==> !f(toks[at..]).ok || NeedsSemi(gaps)
    {
      starts, gaps, stmts, at := [], [0], [], idx;
      var needSemi := false;
      ghost var all := Rest();
      WeaveNothing(all);
      while true
        invariant Valid() && TakesAll(f, toks, starts, stmts) && |gaps| == |stmts| + 1 && Separated(gaps)
        invariant all == old(Rest()) == Weave(gaps, stmts) + Rest()
        invariant needSemi == NeedsSemi(gaps)
        decreases |Rest()|
      {
        needSemi, gaps := SkipSemis(needSemi, gaps, stmts, all);
        at := idx;
        var tok := Peek();
        if tok.None? {
          assert Weave(gaps, stmts) + [] == Weave(gaps, stmts);
          ok := true;
          return;
        }
        if needSemi {
          ok := false;
          return;
        }
        ghost var rest := Rest();
        var start := idx;
        ok := Call(f);
        if !ok {
          return;
        }
        WeaveStatement(gaps, stmts, TakenFrom(f, toks, start), rest, Rest());
        TakesOneMore(f, toks, starts, stmts, start);
        gaps, stmts := gaps + [0], stmts + [TakenFrom(f, toks, start)];
        starts, needSemi := starts + [start], true;
      }
    }

    /** The semicolons in front of a statement. */
    method SkipSemis(needSemi: bool, ghost gaps: seq<nat>, ghost stmts: seq<seq<Token>>, ghost all: seq<Token>)
      returns (need: bool, ghost gaps': seq<nat>)
      requires Valid() && |gaps| == |stmts| + 1 && Separated(gaps) && needSemi == NeedsSemi(gaps)
      requires all == Weave(gaps, stmts) + Rest()
      modifies this
      ensures Valid() && |gaps'| == |gaps| && Separated(gaps') && need == NeedsSemi(gaps')
      ensures all == Weave(gaps', stmts) + Rest() && |Rest()| <= |old(Rest())|
      ensures Rest() == [] || Rest()[0] != SEMI
    {
      need, gaps' := needSemi, gaps;
      while true
        invariant Valid() && |gaps'| == |gaps| && Separated(gaps') && need == NeedsSemi(gaps')
        invariant all == Weave(gaps', stmts) + Rest() && |Rest()| <= |old(Rest())|
        decreases |Rest()|
      {
        ghost var rest := Rest();
        var semi := ConsumeToken(SEMI);
        if !semi {
          return;
        }
        assert rest == [SEMI] + Rest();
        WeaveSemi(gaps', stmts, rest, Rest());
        gaps' := gaps'[|stmts| := gaps'[|stmts|] + 1];
        need := false;
      }
    }
  }
}
