/**
  The SQL tokenizer, against a declarative account of what a token is: its
  spelling, and that no longer token could have been read. Positions are byte
  offsets into UTF-8 text.
*/
module Tokens {
  import opened Basics

  datatype Kind =
    | SemiColon | LeftParen | RightParen | LeftBrace | RightBrace | LeftBracket | RightBracket | Comma | Mul | Exponent | Plus | Minus
    | Div | IntDiv | Mod | Hash | Caret | CaretAt | Gt | GtEq | BitShiftRight | Lt | LtEq | Neq | BitShiftLeft
    | Exclamation | Pipe | Concatenate | Ampersand | Tilde | Colon | DoubleColon | Period | Eq | RightArrow | DoubleEq

  datatype Token =
    | Word(value: string, quoted: bool)
    | SingleQuotedString(text: string)
    | Number(digits: string)
    | Whitespace
    | Comment(comment: string)
    | Fixed(kind: Kind)

  // ---- What a token looks like ----

  /** The tokens of one character. A period may also begin a number. */
  function Single(c: char): (k: Option<Kind>) {
    match c
    case ';' => Some(SemiColon) case '(' => Some(LeftParen) case ')' => Some(RightParen)
    case '[' => Some(LeftBracket) case ']' => Some(RightBracket) case ',' => Some(Comma)
    case '*' => Some(Mul) case '+' => Some(Plus) case '-' => Some(Minus) case '/' => Some(Div)
    case '%' => Some(Mod) case '#' => Some(Hash) case '^' => Some(Caret) case '>' => Some(Gt)
    case '<' => Some(Lt) case '!' => Some(Exclamation) case '|' => Some(Pipe) case '&' => Some(Ampersand)
    case '~' => Some(Tilde) case ':' => Some(Colon) case '=' => Some(Eq)
    case _ => None
  }

  /** The tokens of two characters. */
  function Pair(c: char, d: char): (k: Option<Kind>) {
    match (c, d)
    case ('*', '*') => Some(Exponent) case ('/', '/') => Some(IntDiv) case ('^', '@') => Some(CaretAt)
    case ('>', '=') => Some(GtEq) case ('>', '>') => Some(BitShiftRight) case ('<', '=') => Some(LtEq)
    case ('<', '>') => Some(Neq) case ('<', '<') => Some(BitShiftLeft) case ('!', '=') => Some(Neq)
    case ('|', '|') => Some(Concatenate) case (':', ':') => Some(DoubleColon) case ('=', '>') => Some(RightArrow)
    case ('=', '=') => Some(DoubleEq)
    case _ => None
  }

  predicate IsSpace(c: char) {
    c == ' ' || c == '\t' || c == '\n' || c == '\r'
  }

  predicate IsDigit(c: char) {
    '0' <= c <= '9'
  }

  /** Characters that begin a token other than an unquoted word. */
  predicate Special(c: char) {
    IsSpace(c) || IsDigit(c) || c == '.' || c == '\'' || Single(c).Some?
  }

  predicate IsAsciiLetter(c: char) {
    'a' <= c <= 'z' || 'A' <= c <= 'Z'
  }

  /** Unicode's letters and alphanumerics. */
  datatype Alphabet = Alphabet(alphabetic: char -> bool, alphanumeric: char -> bool) {
    /** Letters are alphanumeric, and the ASCII letters are the ASCII characters
        that are letters. */
    ghost predicate Sound() {
      && (forall c :: alphabetic(c) ==> alphanumeric(c))
      && (forall c :: c as int < 128 ==> (alphabetic(c) <==> IsAsciiLetter(c)))
    }

    predicate StartsWord(c: char) {
      !Special(c) && (alphabetic(c) || c == '_')
    }

    predicate InWord(c: char) {
      alphanumeric(c) || c == '_'
    }
  }

  predicate AllIn(s: string, p: char -> bool) {
    forall i :: 0 <= i < |s| ==> p(s[i])
  }

  predicate NextIs(rest: string, p: char -> bool) {
    rest != [] && p(rest[0])
  }

  /** Digits with at most one period, none if one was `seen` before. */
  predicate IsNumeral(s: string, seen: bool) {
    s == [] || (IsDigit(s[0]) && IsNumeral(s[1..], seen)) || (s[0] == '.' && !seen && IsNumeral(s[1..], true))
  }

  /** The numeral stops here: the next character is neither a digit nor a first period. */
  predicate NumeralStops(s: string, seen: bool, rest: string) {
    rest == [] || (!IsDigit(rest[0]) && (rest[0] != '.' || seen || '.' in s))
  }

  /** Text in quotes; at the end of the input the closing quote may be missing. */
  predicate Quotes(quote: char, text: string, s: string, rest: string) {
    && quote !in text
    && (s == [quote] + text + [quote] || (s == [quote] + text && rest == []))
  }

  /** `s`, followed by `rest`, is the token `t`: it is spelled so, and no longer
      token begins here. */
  ghost predicate IsToken(ab: Alphabet, t: Token, s: string, rest: string) {
    match t
    case Whitespace => |s| == 1 && IsSpace(s[0])
    case Comment(text) => s == ['-', '-'] + text && '\n' !in text && (rest == [] || rest[0] == '\n')
    case SingleQuotedString(text) => Quotes('\'', text, s, rest)
    case Word(value, true) => Quotes('"', value, s, rest)
    case Word(value, false) =>
      && s == value && value != [] && ab.StartsWord(value[0]) && AllIn(value, ab.InWord)
      && !NextIs(rest, ab.InWord)
    case Number(digits) => s == digits && digits != [] && digits != ['.'] && IsNumeral(digits, false) && NumeralStops(digits, false, rest)
    case Fixed(Period) => s == ['.'] && NumeralStops(s, false, rest)
    case Fixed(kind) =>
      || (|s| == 2 && Pair(s[0], s[1]) == Some(kind))
      || (|s| == 1 && Single(s[0]) == Some(kind) && !(rest != [] && LongerFixed(s[0], rest[0])))
  }

  /** Two characters that are read together: a pair or the start of a comment. */
  predicate LongerFixed(c: char, d: char) {
    Pair(c, d).Some? || (c == '-' && d == '-')
  }

  // ---- There is at most one token ----

  /** The kind of first character each token has. */
  datatype Start = SpaceStart | TextStart | NameStart | WordStart | NumeralStart | FixedStart

  function StartOf(t: Token): (st: Start) {
    match t
    case Whitespace => SpaceStart
    case SingleQuotedString(_) => TextStart
    case Word(_, quoted) => if quoted then NameStart else WordStart
    case Number(_) => NumeralStart
    case Comment(_) => FixedStart
    case Fixed(kind) => if kind == Period then NumeralStart else FixedStart
  }

  ghost predicate Starts(ab: Alphabet, st: Start, c: char) {
    match st
    case SpaceStart => IsSpace(c)
    case TextStart => c == '\''
    case NameStart => c == '"'
    case WordStart => ab.StartsWord(c)
    case NumeralStart => IsDigit(c) || c == '.'
    case FixedStart => Single(c).Some?
  }

  lemma TokenStart(ab: Alphabet, t: Token, s: string, rest: string)
    requires IsToken(ab, t, s, rest)
    ensures s != [] && Starts(ab, StartOf(t), s[0])
  {
  }

  /** The ASCII characters no token starts with: controls and a few others. */
  predicate Unhandled(c: char) {
    || c in ['{', '}', '?', '@', '$', '\\', '`']
    || (c as int < 32 && c !in ['\t', '\n', '\r']) || c as int == 127
  }

  lemma UnhandledIff(ab: Alphabet, c: char)
    requires ab.Sound() && c as int < 128
    ensures (forall st :: !Starts(ab, st, c)) <==> Unhandled(c)
  {
    assert Starts(ab, SpaceStart, c) || Starts(ab, TextStart, c) || Starts(ab, NameStart, c) || Starts(ab, WordStart, c)
        || Starts(ab, NumeralStart, c) || Starts(ab, FixedStart, c) || Unhandled(c);
  }

  lemma StartUnique(ab: Alphabet, a: Start, b: Start, c: char)
    requires ab.Sound() && Starts(ab, a, c) && Starts(ab, b, c)
    ensures a == b
  {
  }

  /** How many characters from the front satisfy `p`. */
  function RunLen(p: char -> bool, text: string): (n: nat)
    ensures n <= |text|
  {
    if text == [] || !p(text[0]) then 0 else 1 + RunLen(p, text[1..])
  }

  lemma {:induction false} RunLenOf(p: char -> bool, s: string, rest: string)
    requires AllIn(s, p) && !NextIs(rest, p)
    ensures RunLen(p, s + rest) == |s|
  {
    if s == [] {
      assert s + rest == rest;
    } else {
      RunLenOf(p, s[1..], rest);
      assert (s + rest)[1..] == s[1..] + rest;
    }
  }

  lemma {:induction false} RunOf(p: char -> bool, text: string)
    ensures var n := RunLen(p, text); AllIn(text[..n], p) && !NextIs(text[n..], p)
  {
    if text != [] && p(text[0]) {
      RunOf(p, text[1..]);
      var n := RunLen(p, text[1..]);
      assert text[1 + n..] == text[1..][n..];
      assert text[..1 + n] == [text[0]] + text[1..][..n];
    }
  }

  /** The length of the numeral at the front. */
  function NumeralLen(text: string, seen: bool): (n: nat)
    ensures n <= |text|
  {
    if text == [] then 0
    else if IsDigit(text[0]) then 1 + NumeralLen(text[1..], seen)
    else if text[0] == '.' && !seen then 1 + NumeralLen(text[1..], true)
    else 0
  }

  lemma {:induction false} NumeralLenOf(s: string, seen: bool, rest: string)
    requires IsNumeral(s, seen) && NumeralStops(s, seen, rest)
    ensures NumeralLen(s + rest, seen) == |s|
  {
    if s == [] {
      assert s + rest == rest;
    } else {
      assert (s + rest)[1..] == s[1..] + rest;
      assert s == [s[0]] + s[1..];
      NumeralLenOf(s[1..], seen || s[0] == '.', rest);
    }
  }

  lemma {:induction false} NumeralOf(text: string, seen: bool)
    ensures var n := NumeralLen(text, seen); IsNumeral(text[..n], seen) && NumeralStops(text[..n], seen, text[n..])
  {
    if text != [] && (IsDigit(text[0]) || (text[0] == '.' && !seen)) {
      var seen' := seen || text[0] == '.';
      NumeralOf(text[1..], seen');
      var n := NumeralLen(text[1..], seen');
      assert text[..1 + n][1..] == text[1..][..n] && text[1 + n..] == text[1..][n..];
      assert text[..1 + n] == [text[0]] + text[1..][..n];
    }
  }

  function NotChar(c: char): (p: char -> bool) {
    (d: char) => d != c
  }

  /** The length of the token at the front, by how it starts. */
  ghost function TokenLen(ab: Alphabet, st: Start, text: string): (n: nat)
    requires text != []
  {
    match st
    case SpaceStart => 1
    case TextStart => QuotedLen('\'', text)
    case NameStart => QuotedLen('"', text)
    case WordStart => RunLen(ab.InWord, text)
    case NumeralStart => NumeralLen(text, false)
    case FixedStart =>
      if |text| >= 2 && text[0] == '-' && text[1] == '-' then 2 + RunLen(NotChar('\n'), text[2..])
      else if |text| >= 2 && Pair(text[0], text[1]).Some? then 2
      else 1
  }

  /** Up to the closing quote, or to the end if there is none. */
  ghost function QuotedLen(quote: char, text: string): (n: nat)
    requires text != []
  {
    var n := 1 + RunLen(NotChar(quote), text[1..]);
    if n < |text| then n + 1 else n
  }

  lemma QuotedLenOf(quote: char, inner: string, s: string, rest: string)
    requires Quotes(quote, inner, s, rest)
    ensures QuotedLen(quote, s + rest) == |s|
  {
    var text := s + rest;
    if s == [quote] + inner + [quote] {
      RunLenOf(NotChar(quote), inner, [quote] + rest);
      assert text[1..] == inner + ([quote] + rest);
    } else {
      RunLenOf(NotChar(quote), inner, []);
      assert text[1..] == inner + [];
    }
  }

  lemma FixedLenOf(ab: Alphabet, t: Token, s: string, rest: string)
    requires IsToken(ab, t, s, rest) && StartOf(t) == FixedStart
    ensures s != [] && |s| == TokenLen(ab, FixedStart, s + rest)
  {
    var text := s + rest;
    if t.Comment? {
      RunLenOf(NotChar('\n'), t.comment, rest);
      assert text[2..] == t.comment + rest;
      assert text[0] == '-' && text[1] == '-';
    } else if |s| == 2 {
      assert text[0] == s[0] && text[1] == s[1];
    } else {
      assert text[0] == s[0] && (rest != [] ==> text[1] == rest[0]);
    }
  }

  /** How a token starts and what follows determine its length. */
  lemma TokenLenOf(ab: Alphabet, t: Token, s: string, rest: string)
    requires IsToken(ab, t, s, rest)
    ensures s != [] && |s| == TokenLen(ab, StartOf(t), s + rest)
  {
    TokenStart(ab, t, s, rest);
    match StartOf(t)
    case SpaceStart =>
    case TextStart => QuotedLenOf('\'', t.text, s, rest);
    case NameStart => QuotedLenOf('"', t.value, s, rest);
    case WordStart => RunLenOf(ab.InWord, s, rest);
    case NumeralStart => NumeralLenOf(s, false, rest);
    case FixedStart => FixedLenOf(ab, t, s, rest);
  }

  /** At every place of every text at most one token can be read. */
  lemma TokenUnique(ab: Alphabet, t: Token, s: string, rest: string, t': Token, s': string, rest': string)
    requires ab.Sound() && s + rest == s' + rest'
    requires IsToken(ab, t, s, rest) && IsToken(ab, t', s', rest')
    ensures s == s' && t == t'
  {
    TokenStart(ab, t, s, rest);
    TokenStart(ab, t', s', rest');
    assert s[0] == (s + rest)[0] == (s' + rest')[0] == s'[0];
    StartUnique(ab, StartOf(t), StartOf(t'), s[0]);
    TokenLenOf(ab, t, s, rest);
    TokenLenOf(ab, t', s', rest');
    assert s == (s + rest)[..|s|] == s' && rest == (s + rest)[|s|..] == rest';
    SameSpelling(ab, t, t', s, rest);
  }

  lemma SameSpelling(ab: Alphabet, t: Token, t': Token, s: string, rest: string)
    requires StartOf(t) == StartOf(t') && IsToken(ab, t, s, rest) && IsToken(ab, t', s, rest)
    ensures t == t'
  {
    match StartOf(t)
    case SpaceStart =>
    case TextStart =>
      TextOf('\'', t.text, s, rest);
      TextOf('\'', t'.text, s, rest);
    case NameStart =>
      TextOf('"', t.value, s, rest);
      TextOf('"', t'.value, s, rest);
    case WordStart =>
    case NumeralStart =>
    case FixedStart =>
      assert t.Comment? ==> s[0] == '-' && s[1] == '-' && t.comment == s[2..];
      assert t'.Comment? ==> s[0] == '-' && s[1] == '-' && t'.comment == s[2..];
  }

  /** The quoted text of a token is what lies before the first quote. */
  lemma TextOf(quote: char, inner: string, s: string, rest: string)
    requires Quotes(quote, inner, s, rest)
    ensures s != [] && inner == s[1..][..RunLen(NotChar(quote), s[1..])]
  {
    if s == [quote] + inner + [quote] {
      RunLenOf(NotChar(quote), inner, [quote]);
      assert s[1..] == inner + [quote];
    } else {
      RunLenOf(NotChar(quote), inner, []);
      assert s[1..] == inner + [];
    }
  }

  // ---- How the operators and punctuation are spelled ----

  /** Written from the kinds. Inequality has a second spelling, `!=`. */
  function Spelling(k: Kind): (s: string) {
    match k
    case SemiColon => ";" case LeftParen => "(" case RightParen => ")" case LeftBrace => "{" case RightBrace => "}"
    case LeftBracket => "[" case RightBracket => "]" case Comma => "," case Mul => "*" case Exponent => "**"
    case Plus => "+" case Minus => "-" case Div => "/" case IntDiv => "//" case Mod => "%" case Hash => "#"
    case Caret => "^" case CaretAt => "^@" case Gt => ">" case GtEq => ">=" case BitShiftRight => ">>"
    case Lt => "<" case LtEq => "<=" case Neq => "<>" case BitShiftLeft => "<<" case Exclamation => "!"
    case Pipe => "|" case Concatenate => "||" case Ampersand => "&" case Tilde => "~" case Colon => ":"
    case DoubleColon => "::" case Period => "." case Eq => "=" case RightArrow => "=>" case DoubleEq => "=="
  }

  /** Braces have kinds, but no text is read as one. */
  predicate Spells(k: Kind, s: string) {
    k != LeftBrace && k != RightBrace && (s == Spelling(k) || (k == Neq && s == "!="))
  }

  lemma SingleSpelling(c: char)
    ensures Single(c).Some? ==> Spelling(Single(c).value) == [c] && Spells(Single(c).value, [c])
  {
  }

  lemma SpellingSingle(k: Kind)
    requires |Spelling(k)| == 1 && k != LeftBrace && k != RightBrace
    ensures if k == Period then Spelling(k) == "." else Single(Spelling(k)[0]) == Some(k)
  {
  }

  lemma SpellsOne(k: Kind, s: string)
    requires |s| == 1
    ensures Spells(k, s) <==> Single(s[0]) == Some(k) || (k == Period && s[0] == '.')
  {
    assert s == [s[0]];
    SingleSpelling(s[0]);
    if Spells(k, s) {
      SpellingSingle(k);
    }
  }

  lemma PairSpelling(c: char, d: char)
    ensures Pair(c, d).Some? ==> Spells(Pair(c, d).value, [c, d])
  {
  }

  lemma SpellingPair(k: Kind)
    requires |Spelling(k)| == 2
    ensures Pair(Spelling(k)[0], Spelling(k)[1]) == Some(k)
  {
  }

  lemma SpellsTwo(k: Kind, s: string)
    requires |s| == 2
    ensures Spells(k, s) <==> Pair(s[0], s[1]) == Some(k)
  {
    assert s == [s[0], s[1]];
    PairSpelling(s[0], s[1]);
    if Spells(k, s) && s != "!=" {
      SpellingPair(k);
    }
  }

  /** Some kind, or the start of a comment, is spelled so. */
  ghost predicate Known(s: string) {
    s == "--" || exists k :: Spells(k, s)
  }

  lemma KnownTwo(c: char, d: char)
    ensures Known([c, d]) <==> LongerFixed(c, d)
  {
    var s := [c, d];
    if Pair(c, d).Some? {
      SpellsTwo(Pair(c, d).value, s);
      assert Spells(Pair(c, d).value, s);
    }
    forall k | Spells(k, s) ensures Pair(c, d).Some? {
      SpellsTwo(k, s);
    }
    assert s == "--" <==> c == '-' && d == '-';
  }

  lemma NoThree(s: string, c: char)
    requires |s| == 2
    ensures !Known(s + [c])
  {
    assert |s + [c]| == 3;
  }

  lemma SpellingLength(k: Kind, s: string)
    requires Spells(k, s)
    ensures |s| == 1 || |s| == 2
  {
  }

  lemma OneIff(ab: Alphabet, k: Kind, s: string, rest: string)
    requires k != Period && |s| == 1
    ensures IsToken(ab, Fixed(k), s, rest) <==> Spells(k, s) && (rest == [] || !Known(s + [rest[0]]))
  {
    SpellsOne(k, s);
    if rest != [] {
      KnownTwo(s[0], rest[0]);
      assert s + [rest[0]] == [s[0], rest[0]];
    }
  }

  lemma TwoIff(ab: Alphabet, k: Kind, s: string, rest: string)
    requires k != Period && |s| == 2
    ensures IsToken(ab, Fixed(k), s, rest) <==> Spells(k, s) && (rest == [] || !Known(s + [rest[0]]))
  {
    SpellsTwo(k, s);
    if rest != [] {
      NoThree(s, rest[0]);
    }
  }

  /** A text is read as an operator or punctuation exactly if it spells it, and it does
      not spell more with the next character: another one, or the start of a comment. */
  lemma FixedIff(ab: Alphabet, k: Kind, s: string, rest: string)
    requires k != Period
    ensures IsToken(ab, Fixed(k), s, rest) <==> Spells(k, s) && (rest == [] || !Known(s + [rest[0]]))
  {
    if |s| == 1 {
      OneIff(ab, k, s, rest);
    } else if |s| == 2 {
      TwoIff(ab, k, s, rest);
    } else if Spells(k, s) {
      SpellingLength(k, s);
    }
  }

  /** A period is read alone exactly if no digit follows. */
  lemma PeriodIff(ab: Alphabet, s: string, rest: string)
    ensures IsToken(ab, Fixed(Period), s, rest) <==> s == "." && (rest == [] || !('0' <= rest[0] <= '9'))
  {
  }

  /** A numeral is digits and at most one period, anywhere. */
  lemma {:induction false} NumeralIff(s: string, seen: bool)
    ensures IsNumeral(s, seen) <==>
            && (forall i :: 0 <= i < |s| ==> '0' <= s[i] <= '9' || (s[i] == '.' && !seen))
            && (forall i, j :: 0 <= i < j < |s| ==> s[i] != '.' || s[j] != '.')
  {
    if s != [] {
      var seen' := seen || s[0] == '.';
      NumeralIff(s[1..], seen');
      assert forall i :: 0 < i < |s| ==> s[i] == s[1..][i - 1];
      if IsNumeral(s, seen) {
        assert IsNumeral(s[1..], seen');
      } else if '0' <= s[0] <= '9' || (s[0] == '.' && !seen) {
        assert !IsNumeral(s[1..], seen');
        if forall i :: 0 <= i < |s[1..]| ==> '0' <= s[1..][i] <= '9' || (s[1..][i] == '.' && !seen') {
          var i, j :| 0 <= i < j < |s[1..]| && s[1..][i] == '.' && s[1..][j] == '.';
          assert s[i + 1] == '.' && s[j + 1] == '.';
        } else {
          var i :| 0 <= i < |s[1..]| && !('0' <= s[1..][i] <= '9' || (s[1..][i] == '.' && !seen'));
          assert s[i + 1] == s[1..][i];
        }
      }
    }
  }
}
