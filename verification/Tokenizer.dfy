/**
  `State` and `Tokenizer`: reading tokens off a query by byte offset. The result
  is the only sequence of tokens that covers the query.
*/
module Tokenizer {
  import opened Basics
  import opened Tokens

  // ---- Byte offsets ----

  function Width(c: char): (n: nat)
    ensures 1 <= n <= 4
  {
    var code := c as int;
    if code < 0x80 then 1 else if code < 0x800 then 2 else if code < 0x1_0000 then 3 else 4
  }

  /** The byte offset of the character at index `k`. */
  function Offset(query: string, k: nat): (n: nat)
    requires k <= |query|
  {
    if k == 0 then 0 else Offset(query, k - 1) + Width(query[k - 1])
  }

  /** A character in UTF-8 (section 3 of RFC 3629). */
  function Utf8(c: char): (bs: seq<byte>)
    ensures |bs| > 0
  {
    var code := c as int;
    if code <= 0x7F then [code]
    else if code <= 0x7FF then [0xC0 + code / 0x40, 0x80 + code % 0x40]
    else if code <= 0xFFFF then [0xE0 + code / 0x1000, 0x80 + code / 0x40 % 0x40, 0x80 + code % 0x40]
    else [0xF0 + code / 0x4_0000, 0x80 + code / 0x1000 % 0x40, 0x80 + code / 0x40 % 0x40, 0x80 + code % 0x40]
  }

  function Utf8Of(s: string): (bs: seq<byte>) {
    if s == [] then [] else Utf8Of(s[..|s| - 1]) + Utf8(s[|s| - 1])
  }

  /** The offset of a character is the length of what precedes it in UTF-8. */
  lemma {:induction false} OffsetIsUtf8(query: string, k: nat)
    requires k <= |query|
    ensures Offset(query, k) == |Utf8Of(query[..k])|
  {
    if k > 0 {
      OffsetIsUtf8(query, k - 1);
      assert query[..k][..k - 1] == query[..k - 1];
    }
  }

  lemma {:induction false} OffsetGrows(query: string, j: nat, k: nat)
    requires j <= k <= |query|
    ensures Offset(query, j) + (k - j) <= Offset(query, k)
    decreases k
  {
    if j < k {
      OffsetGrows(query, j, k - 1);
    }
  }

  /** The slice of the query from a byte offset on. Off a character boundary the
      source panics. */
  function CharsFrom(query: string, idx: nat, from: nat): (rest: string)
    requires from <= |query|
    decreases |query| - from
  {
    if idx == 0 || from == |query| then query[from..]
    else if idx < Width(query[from]) then []
    else CharsFrom(query, idx - Width(query[from]), from + 1)
  }

  lemma {:induction false} CharsFromOffset(query: string, from: nat, k: nat)
    requires from <= k <= |query|
    ensures Offset(query, from) <= Offset(query, k)
    ensures CharsFrom(query, Offset(query, k) - Offset(query, from), from) == query[k..]
    decreases k - from
  {
    OffsetGrows(query, from, k);
    if from < k {
      OffsetGrows(query, from + 1, k);
      CharsFromOffset(query, from + 1, k);
    }
  }

  // ---- Covering a stretch with items ----

  /** Where item `i` ends: at the start of the next one or at `end`. */
  function EndOf(starts: seq<nat>, i: nat, end: nat): (e: nat) {
    if i + 1 < |starts| then starts[i + 1] else end
  }

  /** The items, beginning at the given places, cover everything from 0 to `end`
      without gap, and each can be read, by `lexes`, from its start to its end. */
  ghost predicate Covers<T>(lexes: (T, nat, nat) -> bool, items: seq<T>, starts: seq<nat>, end: nat) {
    && |starts| == |items|
    && (if items == [] then end == 0 else starts[0] == 0)
    && forall i :: 0 <= i < |items| ==> lexes(items[i], starts[i], EndOf(starts, i, end)) && starts[i] < EndOf(starts, i, end)
  }

  /** From one place at most one item can be read, and it ends at one place. */
  ghost predicate Functional<T(!new)>(lexes: (T, nat, nat) -> bool) {
    forall t, t', from, to, to' :: lexes(t, from, to) && lexes(t', from, to') ==> t == t' && to == to'
  }

  lemma CoversSnoc<T>(lexes: (T, nat, nat) -> bool, items: seq<T>, starts: seq<nat>, end: nat, t: T, to: nat)
    requires Covers(lexes, items, starts, end) && lexes(t, end, to) && end < to
    ensures Covers(lexes, items + [t], starts + [end], to)
  {
    var ts, ss := items + [t], starts + [end];
    forall i | 0 <= i < |ts| ensures lexes(ts[i], ss[i], EndOf(ss, i, to)) && ss[i] < EndOf(ss, i, to) {
      if i < |items| {
        assert ts[i] == items[i] && ss[i] == starts[i] && EndOf(ss, i, to) == EndOf(starts, i, end);
      }
    }
  }

  lemma FunctionalAt<T(!new)>(lexes: (T, nat, nat) -> bool, t: T, t': T, from: nat, to: nat, to': nat)
    requires Functional(lexes) && lexes(t, from, to) && lexes(t', from, to')
    ensures t == t' && to == to'
  {
  }

  /** Item by item, two covers of the same stretch agree. */
  lemma {:induction false} CoversAgree<T(!new)>(lexes: (T, nat, nat) -> bool, ts: seq<T>, ss: seq<nat>, ts': seq<T>, ss': seq<nat>, end: nat, k: nat)
    requires Functional(lexes) && Covers(lexes, ts, ss, end) && Covers(lexes, ts', ss', end) && k < |ts|
    ensures k < |ts'| && ts[k] == ts'[k] && ss[k] == ss'[k] && EndOf(ss, k, end) == EndOf(ss', k, end)
  {
    EndsLast(lexes, ts, ss, end, k);
    if k > 0 {
      CoversAgree(lexes, ts, ss, ts', ss', end, k - 1);
      EndsLast(lexes, ts', ss', end, k - 1);
      EndsLast(lexes, ts, ss, end, k - 1);
    }
    FunctionalAt(lexes, ts[k], ts'[k], ss[k], EndOf(ss, k, end), EndOf(ss', k, end));
  }

  /** No item before the last one reaches the end. */
  lemma {:induction false} EndsLast<T>(lexes: (T, nat, nat) -> bool, ts: seq<T>, ss: seq<nat>, end: nat, i: nat)
    requires Covers(lexes, ts, ss, end) && i < |ts|
    ensures ss[i] < EndOf(ss, i, end) <= end
    ensures EndOf(ss, i, end) == end <==> i + 1 == |ts|
    decreases |ts| - i
  {
    if i + 1 < |ts| {
      EndsLast(lexes, ts, ss, end, i + 1);
    }
  }

  /** There is only one way to cover a stretch. */
  lemma CoverUnique<T(!new)>(lexes: (T, nat, nat) -> bool, ts: seq<T>, ss: seq<nat>, ts': seq<T>, ss': seq<nat>, end: nat)
    requires Functional(lexes) && Covers(lexes, ts, ss, end) && Covers(lexes, ts', ss', end)
    ensures ts == ts' && ss == ss'
  {
    forall k | 0 <= k < |ts| ensures k < |ts'| && ts[k] == ts'[k] && ss[k] == ss'[k] {
      CoversAgree(lexes, ts, ss, ts', ss', end, k);
    }
    if ts != [] {
      CoversAgree(lexes, ts, ss, ts', ss', end, |ts| - 1);
    }
    if ts' != [] {
      CoversAgree(lexes, ts', ss', ts, ss, end, |ts'| - 1);
    }
  }

  /** A cover of a stretch begins with any cover of an initial part of it. */
  lemma {:induction false} CoversPrefix<T(!new)>(lexes: (T, nat, nat) -> bool, done: seq<T>, ds: seq<nat>, at: nat, ts: seq<T>, ss: seq<nat>, end: nat, k: nat)
    requires Functional(lexes) && Covers(lexes, done, ds, at) && Covers(lexes, ts, ss, end) && at < end && k <= |done|
    ensures k < |ts| && ss[k] == (if k < |done| then ds[k] else at)
  {
    if k > 0 {
      CoversPrefix(lexes, done, ds, at, ts, ss, end, k - 1);
      FunctionalAt(lexes, done[k - 1], ts[k - 1], ds[k - 1], EndOf(ds, k - 1, at), EndOf(ss, k - 1, end));
      EndsLast(lexes, done, ds, at, k - 1);
      EndsLast(lexes, ts, ss, end, k - 1);
    }
  }

  /** Where nothing can be read there is no cover across. */
  lemma NoCoverAcross<T(!new)>(lexes: (T, nat, nat) -> bool, done: seq<T>, ds: seq<nat>, at: nat, ts: seq<T>, ss: seq<nat>, end: nat)
    requires Functional(lexes) && Covers(lexes, done, ds, at) && at < end
    requires forall t, to :: !lexes(t, at, to)
    ensures !Covers(lexes, ts, ss, end)
  {
    if Covers(lexes, ts, ss, end) {
      CoversPrefix(lexes, done, ds, at, ts, ss, end, |done|);
      assert false;
    }
  }

  /** The slices of a text between consecutive starts. */
  function Slices(query: string, starts: seq<nat>, end: nat): (slices: seq<string>)
    requires end <= |query|
  {
    if starts == [] then []
    else
      var last := starts[|starts| - 1];
      if last <= end then Slices(query, starts[..|starts| - 1], last) + [query[last..end]] else []
  }

  /** Put together, the slices between the starts of a cover are the whole stretch. */
  lemma {:induction false} SlicesJoin<T>(query: string, lexes: (T, nat, nat) -> bool, items: seq<T>, starts: seq<nat>, end: nat)
    requires Covers(lexes, items, starts, end) && end <= |query|
    ensures Concat(Slices(query, starts, end)) == query[..end]
  {
    if items != [] {
      var n := |items| - 1;
      var last := starts[n];
      EndsLast(lexes, items, starts, end, n);
      CoversInit(lexes, items, starts, end);
      SlicesJoin(query, lexes, items[..n], starts[..n], last);
      ConcatSnoc(Slices(query, starts[..n], last), query[last..end]);
      assert query[..last] + query[last..end] == query[..end];
    }
  }

  lemma CoversInit<T>(lexes: (T, nat, nat) -> bool, items: seq<T>, starts: seq<nat>, end: nat)
    requires Covers(lexes, items, starts, end) && items != []
    ensures var n := |items| - 1; Covers(lexes, items[..n], starts[..n], starts[n])
  {
    var n := |items| - 1;
    forall i | 0 <= i < n
      ensures lexes(items[..n][i], starts[..n][i], EndOf(starts[..n], i, starts[n])) && starts[..n][i] < EndOf(starts[..n], i, starts[n])
    {
      assert EndOf(starts[..n], i, starts[n]) == EndOf(starts, i, end);
    }
  }

  // ---- Tokens at places of a query ----

  datatype TokenWithLocation = TokenWithLocation(token: Token, startIdx: nat)

  function TokensOf(ts: seq<TokenWithLocation>): (tokens: seq<Token>)
    ensures |tokens| == |ts|
  {
    seq(|ts|, i requires 0 <= i < |ts| => ts[i].token)
  }

  ghost predicate TokenAt(ab: Alphabet, query: string, t: Token, from: nat, to: nat) {
    from < to <= |query| && IsToken(ab, t, query[from..to], query[to..])
  }

  /** `lexes` is reading tokens of the query. The trigger keeps the definition of
      tokens out of the way wherever it is not the point. */
  ghost predicate ReadsTokens(lexes: (Token, nat, nat) -> bool, ab: Alphabet, query: string) {
    forall t, from, to {:trigger TokenAt(ab, query, t, from, to)} ::
      lexes(t, from, to) == TokenAt(ab, query, t, from, to)
  }

  ghost function Reading(ab: Alphabet, query: string): (lexes: (Token, nat, nat) -> bool)
    ensures ReadsTokens(lexes, ab, query)
  {
    (t: Token, from: nat, to: nat) => TokenAt(ab, query, t, from, to)
  }

  /** The tokens cover the whole query. */
  ghost predicate Tokenizes(ab: Alphabet, query: string, tokens: seq<Token>, starts: seq<nat>) {
    Covers(Reading(ab, query), tokens, starts, |query|)
  }

  lemma TokensFunctional(lexes: (Token, nat, nat) -> bool, ab: Alphabet, query: string)
    requires ab.Sound() && ReadsTokens(lexes, ab, query)
    ensures Functional(lexes)
  {
    forall t, t', from, to, to' | lexes(t, from, to) && lexes(t', from, to') ensures t == t' && to == to' {
      assert TokenAt(ab, query, t, from, to) && TokenAt(ab, query, t', from, to');
      SameTokenAt(ab, query, t, t', from, to, to');
    }
  }

  lemma SameTokenAt(ab: Alphabet, query: string, t: Token, t': Token, from: nat, to: nat, to': nat)
    requires ab.Sound() && TokenAt(ab, query, t, from, to) && TokenAt(ab, query, t', from, to')
    ensures t == t' && to == to'
  {
    assert query[from..to] + query[to..] == query[from..] == query[from..to'] + query[to'..];
    TokenUnique(ab, t, query[from..to], query[to..], t', query[from..to'], query[to'..]);
  }

  /** Every query has at most one tokenization. */
  lemma TokenizationUnique(ab: Alphabet, query: string, ts: seq<Token>, ss: seq<nat>, ts': seq<Token>, ss': seq<nat>)
    requires ab.Sound() && Tokenizes(ab, query, ts, ss) && Tokenizes(ab, query, ts', ss')
    ensures ts == ts' && ss == ss'
  {
    TokensFunctional(Reading(ab, query), ab, query);
    CoverUnique(Reading(ab, query), ts, ss, ts', ss', |query|);
  }

  /** Tokenizing loses nothing: the slices between the starts are the query. */
  lemma TokenizationLossless(ab: Alphabet, query: string, ts: seq<Token>, ss: seq<nat>)
    requires Tokenizes(ab, query, ts, ss)
    ensures Concat(Slices(query, ss, |query|)) == query
  {
    SlicesJoin(query, Reading(ab, query), ts, ss, |query|);
    assert query[..|query|] == query;
  }

  /** A token that is the whole query is its tokenization. */
  lemma TokenAlone(ab: Alphabet, query: string, t: Token)
    requires query != [] && IsToken(ab, t, query, [])
    ensures Tokenizes(ab, query, [t], [0])
  {
    assert query[0..|query|] == query && query[|query|..] == [];
    assert TokenAt(ab, query, t, 0, |query|);
  }

  /** Every spelling of an operator or of punctuation tokenizes to just that. */
  lemma SpellingTokenizes(ab: Alphabet, k: Kind, s: string)
    requires Spells(k, s)
    ensures Tokenizes(ab, s, [Fixed(k)], [0])
  {
    if k == Period {
      PeriodIff(ab, s, []);
    } else {
      FixedIff(ab, k, s, []);
    }
    SpellingLength(k, s);
    TokenAlone(ab, s, Fixed(k));
  }

  predicate IsAsciiWord(s: string) {
    && s != [] && (IsAsciiLetter(s[0]) || s[0] == '_')
    && forall i :: 0 <= i < |s| ==> IsAsciiLetter(s[i]) || '0' <= s[i] <= '9' || s[i] == '_'
  }

  /** A name of letters, digits and underscores, not beginning with a digit, is one word. */
  lemma NameTokenizes(ab: Alphabet, s: string)
    requires ab.Sound() && (forall c :: '0' <= c <= '9' ==> ab.alphanumeric(c)) && IsAsciiWord(s)
    ensures Tokenizes(ab, s, [Word(s, false)], [0])
  {
    forall i | 0 <= i < |s| ensures ab.InWord(s[i]) {
      if IsAsciiLetter(s[i]) {
        assert ab.alphabetic(s[i]);
      }
    }
    TokenAlone(ab, s, Word(s, false));
  }

  /** Digits with at most one period are one number; a period alone is none. */
  lemma NumberTokenizes(ab: Alphabet, s: string)
    requires s != [] && s != "."
    requires forall i :: 0 <= i < |s| ==> '0' <= s[i] <= '9' || s[i] == '.'
    requires forall i, j :: 0 <= i < j < |s| ==> s[i] != '.' || s[j] != '.'
    ensures Tokenizes(ab, s, [Number(s)], [0])
  {
    NumeralIff(s, false);
    TokenAlone(ab, s, Number(s));
  }

  /** Text in single quotes is a string, and in double quotes a name, also where the
      closing quote is missing. */
  lemma QuotedTokenizes(ab: Alphabet, text: string, closed: bool)
    ensures '\'' !in text ==> Tokenizes(ab, "'" + text + (if closed then "'" else ""), [SingleQuotedString(text)], [0])
    ensures '"' !in text ==> Tokenizes(ab, "\"" + text + (if closed then "\"" else ""), [Word(text, true)], [0])
  {
    var s, n := "'" + text + (if closed then "'" else ""), "\"" + text + (if closed then "\"" else "");
    if '\'' !in text {
      assert Quotes('\'', text, s, []);
      TokenAlone(ab, s, SingleQuotedString(text));
    }
    if '"' !in text {
      assert Quotes('"', text, n, []);
      TokenAlone(ab, n, Word(text, true));
    }
  }

  /** Two dashes and the rest of the line are a comment; blanks and line ends are whitespace. */
  lemma BlanksTokenize(ab: Alphabet, text: string, c: char)
    ensures '\n' !in text ==> Tokenizes(ab, "--" + text, [Comment(text)], [0])
    ensures c in [' ', '\t', '\n', '\r'] ==> Tokenizes(ab, [c], [Whitespace], [0])
  {
    if '\n' !in text {
      TokenAlone(ab, "--" + text, Comment(text));
    }
    if c in [' ', '\t', '\n', '\r'] {
      TokenAlone(ab, [c], Whitespace);
    }
  }

  /** Behind a prefix that tokenizes comes a character no token starts with. */
  lemma NoTokenization(lexes: (Token, nat, nat) -> bool, ab: Alphabet, query: string, done: seq<Token>, ds: seq<nat>, at: nat)
    requires ab.Sound() && ReadsTokens(lexes, ab, query)
    requires Covers(lexes, done, ds, at) && at < |query| && forall st :: !Starts(ab, st, query[at])
    ensures forall ts, ss :: !Covers(lexes, ts, ss, |query|)
  {
    TokensFunctional(lexes, ab, query);
    forall t, to ensures !lexes(t, at, to) {
      NoTokenAt(ab, query, t, at, to);
    }
    forall ts, ss ensures !Covers(lexes, ts, ss, |query|) {
      NoCoverAcross(lexes, done, ds, at, ts, ss, |query|);
    }
  }

  /** Behind a prefix that tokenizes comes a brace. */
  lemma BraceStops(ab: Alphabet, query: string, done: seq<Token>, ds: seq<nat>, at: nat)
    requires ab.Sound() && Covers(Reading(ab, query), done, ds, at)
    requires at < |query| && (query[at] == '{' || query[at] == '}')
    ensures forall ts, ss :: !Tokenizes(ab, query, ts, ss)
  {
    UnhandledIff(ab, query[at]);
    NoTokenization(Reading(ab, query), ab, query, done, ds, at);
  }

  /** A brace alone has no tokenization. */
  lemma BraceAlone(ab: Alphabet)
    requires ab.Sound()
    ensures forall ts, ss :: !Tokenizes(ab, "{", ts, ss)
  {
    BraceStops(ab, "{", [], [], 0);
  }

  /** No tokenization has a brace token in it. */
  lemma NoBraceTokens(ab: Alphabet, query: string, ts: seq<Token>, ss: seq<nat>)
    requires Tokenizes(ab, query, ts, ss)
    ensures Fixed(LeftBrace) !in ts && Fixed(RightBrace) !in ts
  {
    forall i | 0 <= i < |ts| ensures ts[i] != Fixed(LeftBrace) && ts[i] != Fixed(RightBrace) {
      var from, to := ss[i], EndOf(ss, i, |query|);
      assert Reading(ab, query)(ts[i], from, to);
      assert TokenAt(ab, query, ts[i], from, to);
      NotABrace(ab, ts[i], query[from..to], query[to..]);
    }
  }

  lemma NotABrace(ab: Alphabet, t: Token, s: string, rest: string)
    requires IsToken(ab, t, s, rest)
    ensures t != Fixed(LeftBrace) && t != Fixed(RightBrace)
  {
  }

  lemma NoTokenAt(ab: Alphabet, query: string, t: Token, at: nat, to: nat)
    requires at < |query| && forall st :: !Starts(ab, st, query[at])
    ensures !TokenAt(ab, query, t, at, to)
  {
    if at < to <= |query| && IsToken(ab, t, query[at..to], query[to..]) {
      TokenStart(ab, t, query[at..to], query[to..]);
    }
  }

  // ---- The four ways a token is put together ----

  lemma PairAt(ab: Alphabet, query: string, from: nat)
    requires from + 2 <= |query| && Pair(query[from], query[from + 1]).Some?
    ensures TokenAt(ab, query, Fixed(Pair(query[from], query[from + 1]).value), from, from + 2)
  {
    var s := query[from..from + 2];
    assert s[0] == query[from] && s[1] == query[from + 1];
  }

  lemma SingleAt(ab: Alphabet, query: string, from: nat)
    requires from < |query| && Single(query[from]).Some?
    requires from + 1 < |query| ==> !LongerFixed(query[from], query[from + 1])
    ensures TokenAt(ab, query, Fixed(Single(query[from]).value), from, from + 1)
  {
    var s, rest := query[from..from + 1], query[from + 1..];
    assert s[0] == query[from] && (rest != [] ==> rest[0] == query[from + 1]);
  }

  lemma CommentAt(ab: Alphabet, query: string, from: nat, to: nat)
    requires from + 2 <= to <= |query| && query[from] == '-' && query[from + 1] == '-'
    requires to == from + 2 + RunLen(NotChar('\n'), query[from + 2..])
    ensures TokenAt(ab, query, Comment(query[from + 2..to]), from, to)
  {
    var text, n := query[from + 2..], to - (from + 2);
    RunOf(NotChar('\n'), text);
    assert query[from + 2..to] == text[..n] && query[to..] == text[n..];
    assert query[from..to] == ['-', '-'] + query[from + 2..to];
  }

  lemma QuotedAt(quote: char, query: string, from: nat, mid: nat)
    requires from < mid <= |query| && query[from] == quote
    requires mid == from + 1 + RunLen(NotChar(quote), query[from + 1..])
    ensures var to := if mid < |query| then mid + 1 else mid;
            Quotes(quote, query[from + 1..mid], query[from..to], query[to..])
  {
    var text, n := query[from + 1..], mid - (from + 1);
    RunOf(NotChar(quote), text);
    assert query[from + 1..mid] == text[..n] && query[mid..] == text[n..];
    assert query[from..mid] == [quote] + query[from + 1..mid];
    if mid < |query| {
      assert query[mid] == text[n] == quote;
      assert query[from..mid + 1] == [quote] + query[from + 1..mid] + [quote];
    }
  }

  lemma NumeralAt(ab: Alphabet, query: string, from: nat, to: nat)
    requires from < to <= |query| && to == from + NumeralLen(query[from..], false)
    ensures var s := query[from..to]; TokenAt(ab, query, if s == ['.'] then Fixed(Period) else Number(s), from, to)
  {
    NumeralOf(query[from..], false);
    assert query[from..to] == query[from..][..to - from] && query[to..] == query[from..][to - from..];
  }

  lemma WordAt(ab: Alphabet, query: string, from: nat, to: nat)
    requires from < to <= |query| && ab.StartsWord(query[from]) && to == from + RunLen(ab.InWord, query[from..])
    ensures TokenAt(ab, query, Word(query[from..to], false), from, to)
  {
    RunOf(ab.InWord, query[from..]);
    assert query[from..to] == query[from..][..to - from] && query[to..] == query[from..][to - from..];
  }

  // ---- The reader ----

  datatype Lexed = AtEnd | Tok(token: Token) | Unhandled(c: char)

  class State {
    const query: string
    var idx: nat
    // The number of characters before `idx`.
    ghost var at: nat

    constructor (query: string)
      ensures Valid() && this.query == query && at == 0
    {
      this.query, idx, at := query, 0, 0;
    }

    /** `idx` is on a character boundary. */
    ghost predicate Valid()
      reads this
    {
      at <= |query| && idx == Offset(query, at)
    }

    /** `query[idx..]`. */
    method Chars() returns (rest: string)
      requires Valid()
      ensures rest == query[at..]
    {
      CharsFromOffset(query, 0, at);
      rest := CharsFrom(query, idx, 0);
    }

    method Peek() returns (c: Option<char>)
      requires Valid()
      ensures c == if at < |query| then Some(query[at]) else None
    {
      var chars := Chars();
      c := if chars != [] then Some(chars[0]) else None;
    }

    method Next() returns (c: Option<char>)
      requires Valid()
      modifies this
      ensures Valid()
      ensures c == if old(at) < |query| then Some(query[old(at)]) else None
      ensures at == if old(at) < |query| then old(at) + 1 else old(at)
    {
      var chars := Chars();
      if chars == [] {
        return None;
      }
      c := Some(chars[0]);
      idx, at := idx + Width(chars[0]), at + 1;
    }

    method TakeWhile(p: char -> bool) returns (s: string)
      requires Valid()
      modifies this
      ensures Valid()
      ensures at == old(at) + RunLen(p, query[old(at)..]) && s == query[old(at)..at]
    {
      var chars := Chars();
      var n, endIdx := 0, idx;
      while n < |chars| && p(chars[n])
        invariant n <= |chars| && endIdx == Offset(query, at + n)
        invariant RunLen(p, chars) == n + RunLen(p, chars[n..])
        decreases |chars| - n
      {
        assert chars[n..][1..] == chars[n + 1..];
        endIdx, n := endIdx + Width(chars[n]), n + 1;
      }
      s := chars[..n];
      idx, at := endIdx, at + n;
    }

    /** `take_while` with the closure that lets one period pass. */
    method TakeNumeral() returns (s: string)
      requires Valid()
      modifies this
      ensures Valid()
      ensures at == old(at) + NumeralLen(query[old(at)..], false) && s == query[old(at)..at]
    {
      var chars := Chars();
      var n, endIdx, periodFound := 0, idx, false;
      while n < |chars| && (IsDigit(chars[n]) || (chars[n] == '.' && !periodFound))
        invariant n <= |chars| && endIdx == Offset(query, at + n)
        invariant NumeralLen(chars, false) == n + NumeralLen(chars[n..], periodFound)
        decreases |chars| - n
      {
        assert chars[n..][1..] == chars[n + 1..];
        if !IsDigit(chars[n]) {
          periodFound := true;
        }
        endIdx, n := endIdx + Width(chars[n]), n + 1;
      }
      s := chars[..n];
      idx, at := endIdx, at + n;
    }

    // ---- Tokens ----

    /** An operator or punctuation, or a comment. */
    method TakeFixed(ab: Alphabet) returns (t: Token)
      requires Valid() && at < |query| && Single(query[at]).Some?
      modifies this
      ensures Valid() && TokenAt(ab, query, t, old(at), at)
    {
      ghost var from := at;
      var c := Next();
      var d := Peek();
      if c == Some('-') && d == Some('-') {
        var _ := Next();
        var text := TakeWhile(NotChar('\n'));
        CommentAt(ab, query, from, at);
        t := Comment(text);
      } else if d.Some? && Pair(c.value, d.value).Some? {
        var _ := Next();
        PairAt(ab, query, from);
        t := Fixed(Pair(c.value, d.value).value);
      } else {
        SingleAt(ab, query, from);
        t := Fixed(Single(c.value).value);
      }
    }

    /** A quoted text with its quotes. */
    method TakeQuoted(quote: char) returns (text: string)
      requires Valid() && at < |query| && query[at] == quote
      modifies this
      ensures Valid() && old(at) < at && Quotes(quote, text, query[old(at)..at], query[at..])
    {
      ghost var from := at;
      var _ := Next();
      text := TakeWhile(NotChar(quote));
      QuotedAt(quote, query, from, at);
      var _ := Next();
    }

    method TakeNumber(ab: Alphabet) returns (t: Token)
      requires Valid() && at < |query| && (IsDigit(query[at]) || query[at] == '.')
      modifies this
      ensures Valid() && TokenAt(ab, query, t, old(at), at)
    {
      ghost var from := at;
      var s := TakeNumeral();
      NumeralAt(ab, query, from, at);
      t := if s == ['.'] then Fixed(Period) else Number(s);
    }

    method TakeWord(ab: Alphabet) returns (t: Token)
      requires Valid() && at < |query| && ab.Sound() && ab.StartsWord(query[at])
      modifies this
      ensures Valid() && TokenAt(ab, query, t, old(at), at)
    {
      ghost var from := at;
      var s := TakeWhile(ab.InWord);
      WordAt(ab, query, from, at);
      t := Word(s, false);
    }

    /** The next token, if there is one; an error exactly where no token can start. */
    method NextToken(ab: Alphabet, ghost lexes: (Token, nat, nat) -> bool) returns (r: Lexed)
      requires Valid() && ab.Sound() && ReadsTokens(lexes, ab, query)
      modifies this
      ensures Valid()
      ensures match r
              case AtEnd => at == old(at) == |query|
              case Tok(t) => old(at) < at && lexes(t, old(at), at)
              case Unhandled(c) => at == old(at) < |query| && c == query[at] && forall st :: !Starts(ab, st, c)
    {
      var peeked := Peek();
      if peeked.None? {
        return AtEnd;
      }
      var c, t := peeked.value, Whitespace;
      if IsSpace(c) {
        var _ := Next();
      } else if Single(c).Some? {
        t := TakeFixed(ab);
      } else if c == '\'' {
        var text := TakeQuoted(c);
        t := SingleQuotedString(text);
      } else if IsDigit(c) || c == '.' {
        t := TakeNumber(ab);
      } else if ab.alphabetic(c) || c == '_' {
        t := TakeWord(ab);
      } else if c == '"' {
        var name := TakeQuoted(c);
        t := Word(name, true);
      } else {
        return Unhandled(c);
      }
      assert TokenAt(ab, query, t, old(at), at);
      r := Tok(t);
    }
  }

  /** `tokenize`: on success the tokens cover the query, each with the byte offset
      of its first character; these grow strictly from 0. It fails at the first
      character that would have to start a token and cannot, and only if no
      sequence of tokens covers the query. */
  method Tokenize(ab: Alphabet, query: string)
    returns (tokens: seq<TokenWithLocation>, error: Option<char>, ghost starts: seq<nat>, ghost at: nat)
    requires ab.Sound()
    ensures error.None? ==> Tokenizes(ab, query, TokensOf(tokens), starts)
    ensures Located(query, tokens, starts)
    ensures error.Some? ==> at < |query| && error.value == query[at] && Covers(Reading(ab, query), TokensOf(tokens), starts, at)
    ensures error.Some? ==> forall st :: !Starts(ab, st, query[at])
    ensures error.Some? ==> forall ts, ss :: !Tokenizes(ab, query, ts, ss)
  {
    tokens, error, starts, at := TokenizeLoop(ab, query, Reading(ab, query));
  }

  /** Each token carries the byte offset of its first character; they grow strictly. */
  ghost predicate Located(query: string, tokens: seq<TokenWithLocation>, starts: seq<nat>) {
    && |starts| == |tokens|
    && (forall i :: 0 <= i < |tokens| ==> starts[i] <= |query| && tokens[i].startIdx == Offset(query, starts[i]))
    && (forall i, j :: 0 <= i < j < |tokens| ==> tokens[i].startIdx < tokens[j].startIdx)
  }

  lemma LocatedSnoc(query: string, tokens: seq<TokenWithLocation>, starts: seq<nat>, t: Token, from: nat)
    requires Located(query, tokens, starts) && from <= |query|
    requires forall i :: 0 <= i < |starts| ==> starts[i] < from
    ensures Located(query, tokens + [TokenWithLocation(t, Offset(query, from))], starts + [from])
  {
    forall i | 0 <= i < |tokens| ensures tokens[i].startIdx < Offset(query, from) {
      OffsetGrows(query, starts[i], from);
    }
  }

  method TokenizeLoop(ab: Alphabet, query: string, ghost lexes: (Token, nat, nat) -> bool)
    returns (tokens: seq<TokenWithLocation>, error: Option<char>, ghost starts: seq<nat>, ghost at: nat)
    requires ab.Sound() && ReadsTokens(lexes, ab, query)
    ensures error.None? ==> Covers(lexes, TokensOf(tokens), starts, |query|)
    ensures Located(query, tokens, starts)
    ensures error.Some? ==> at < |query| && error.value == query[at] && Covers(lexes, TokensOf(tokens), starts, at)
    ensures error.Some? ==> forall st :: !Starts(ab, st, query[at])
    ensures error.Some? ==> forall ts, ss :: !Covers(lexes, ts, ss, |query|)
  {
    var state := new State(query);
    tokens, starts, error, at := [], [], None, 0;
    var startIdx := state.idx;
    while true
      invariant state.Valid() && state.query == query && startIdx == state.idx
      invariant Covers(lexes, TokensOf(tokens), starts, state.at)
      invariant Located(query, tokens, starts)
      invariant forall i :: 0 <= i < |starts| ==> starts[i] < state.at
      decreases |query| - state.at
    {
      ghost var from := state.at;
      var r := state.NextToken(ab, lexes);
      if r.AtEnd? {
        return;
      }
      if r.Unhandled? {
        error, at := Some(r.c), from;
        NoTokenization(lexes, ab, query, TokensOf(tokens), starts, from);
        return;
      }
      CoversSnoc(lexes, TokensOf(tokens), starts, from, r.token, state.at);
      LocatedSnoc(query, tokens, starts, r.token, from);
      tokens, starts := tokens + [TokenWithLocation(r.token, startIdx)], starts + [from];
      assert TokensOf(tokens) == TokensOf(tokens[..|tokens| - 1]) + [r.token];
      assert tokens[..|tokens| - 1] + [tokens[|tokens| - 1]] == tokens;
      startIdx := state.idx;
    }
  }
}
