/** The built-in simple regular expressions of the test framework: syntax check, the
    recursive matcher, and the meaning it computes. C strings are sequences without NUL. */
module SimpleRegex {
  // ------------------------------------------------ characters

  predicate CString(s: string) {
    '\0' !in s
  }

  /** s[i] of a NUL-terminated string. */
  function At(s: string, i: nat): char {
    if i < |s| then s[i] else '\0'
  }

  predicate IsInSet(ch: char, set': string) {
    ch != '\0' && ch in set'
  }

  predicate IsAsciiDigit(ch: char) {
    '0' <= ch <= '9'
  }

  const PUNCTUATION: string := "^-!\"#$%&'()*+,./:;<=>?@[\\]_`{|}~"

  predicate IsAsciiPunct(ch: char) {
    IsInSet(ch, PUNCTUATION)
  }

  predicate IsRepeat(ch: char) {
    ch == '?' || ch == '*' || ch == '+'
  }

  predicate IsUnsupported(ch: char) {
    ch == '(' || ch == ')' || ch == '[' || ch == ']' || ch == '{' || ch == '}' || ch == '|'
  }

  predicate IsAsciiWhiteSpace(ch: char) {
    ch == ' ' || ch == '\U{000C}' || ch == '\n' || ch == '\r' || ch == '\t' || ch == '\U{000B}'
  }

  predicate IsAsciiWordChar(ch: char) {
    'a' <= ch <= 'z' || 'A' <= ch <= 'Z' || '0' <= ch <= '9' || ch == '_'
  }

  predicate IsValidEscape(c: char) {
    IsAsciiPunct(c) || IsInSet(c, "dDfnrsStvwW")
  }

  predicate AtomMatchesChar(escaped: bool, p: char, ch: char) {
    if escaped then
      match p
      case 'd' => IsAsciiDigit(ch)
      case 'D' => !IsAsciiDigit(ch)
      case 'f' => ch == '\U{000C}'
      case 'n' => ch == '\n'
      case 'r' => ch == '\r'
      case 's' => IsAsciiWhiteSpace(ch)
      case 'S' => !IsAsciiWhiteSpace(ch)
      case 't' => ch == '\t'
      case 'v' => ch == '\U{000B}'
      case 'w' => IsAsciiWordChar(ch)
      case 'W' => !IsAsciiWordChar(ch)
      case _ => IsAsciiPunct(p) && p == ch
    else (p == '.' && ch != '\n') || p == ch
  }

  /** The character classes, in terms of the sets of characters they name. */
  lemma CharacterSets(ch: char)
    ensures IsRepeat(ch) <==> IsInSet(ch, "?*+")
    ensures IsUnsupported(ch) <==> IsInSet(ch, "()[]{}|")
    ensures IsAsciiDigit(ch) <==> IsInSet(ch, "0123456789")
    ensures IsAsciiWhiteSpace(ch) <==> IsInSet(ch, [' ', 12 as char, '\n', '\r', '\t', 11 as char])
  {
  }

  /** The four blocks of ASCII punctuation. */
  predicate InPunctuationRanges(ch: char) {
    '!' <= ch <= '/' || ':' <= ch <= '@' || '[' <= ch <= '`' || '{' <= ch <= '~'
  }

  lemma FirstQuarter(ch: char)
    ensures ch in "^-!\"#$%&" <==>
              ch == '^' || ch == '-' || ch == '!' || ch == '"' || ch == '#' || ch == '$' || ch == '%' || ch == '&'
  {
  }

  lemma SecondQuarter(ch: char)
    ensures ch in "'()*+,./" <==>
              ch == '\'' || ch == '(' || ch == ')' || ch == '*' || ch == '+' || ch == ',' || ch == '.' || ch == '/'
  {
  }

  lemma ThirdQuarter(ch: char)
    ensures ch in ":;<=>?@[" <==>
              ch == ':' || ch == ';' || ch == '<' || ch == '=' || ch == '>' || ch == '?' || ch == '@' || ch == '['
  {
  }

  lemma LastQuarter(ch: char)
    ensures ch in "\\]_`{|}~" <==>
              ch == '\\' || ch == ']' || ch == '_' || ch == '`' || ch == '{' || ch == '|' || ch == '}' || ch == '~'
  {
  }

  lemma FourQuarters()
    ensures PUNCTUATION == ("^-!\"#$%&" + "'()*+,./") + (":;<=>?@[" + "\\]_`{|}~")
  {
  }

  lemma InFourParts(ch: char, s: string, a: string, b: string, c: string, d: string)
    requires s == (a + b) + (c + d)
    ensures ch in s <==> ch in a || ch in b || ch in c || ch in d
  {
  }

  /** The punctuation characters are those of the four blocks. */
  lemma PunctuationBlocks(ch: char)
    ensures IsAsciiPunct(ch) <==> InPunctuationRanges(ch)
  {
    FourQuarters();
    InFourParts(ch, PUNCTUATION, "^-!\"#$%&", "'()*+,./", ":;<=>?@[", "\\]_`{|}~");
    FirstQuarter(ch);
    SecondQuarter(ch);
    ThirdQuarter(ch);
    LastQuarter(ch);
  }

  /** The escapes that are accepted: punctuation, and eleven letters. */
  lemma EscapesAre(c: char)
    ensures IsValidEscape(c) <==>
              || InPunctuationRanges(c)
              || c == 'd' || c == 'D' || c == 'f' || c == 'n' || c == 'r' || c == 's' || c == 'S' || c == 't'
              || c == 'v' || c == 'w' || c == 'W'
  {
    PunctuationBlocks(c);
  }

  // ------------------------------------------------ patterns and their meaning

  datatype Repeat = Once | Optional | Star | Plus

  datatype Item = Item(escaped: bool, c: char, repeat: Repeat)

  datatype Pattern = Pattern(fromStart: bool, items: seq<Item>, toEnd: bool)

  predicate ValidItem(it: Item) {
    if it.escaped then IsValidEscape(it.c)
    else it.c != '\0' && it.c != '\\' && it.c != '^' && it.c != '$' && !IsRepeat(it.c) && !IsUnsupported(it.c)
  }

  /** The valid atoms, character by character. */
  lemma AtomsValidExactly(it: Item)
    ensures it.escaped ==>
              (ValidItem(it) <==> InPunctuationRanges(it.c) || it.c in "dDfnrsStvwW")
    ensures !it.escaped ==>
              (ValidItem(it) <==> it.c != '\0' && it.c !in "\\^$" && it.c !in "?*+" && it.c !in "()[]{}|")
  {
    EscapesAre(it.c);
  }

  /** The characters an atom stands for. */
  predicate AtomMeans(it: Item, ch: char) {
    if !it.escaped then (if it.c == '.' then ch != '\n' else ch == it.c)
    else
      match it.c
      case 'd' => '0' <= ch <= '9'
      case 'D' => !('0' <= ch <= '9')
      case 's' => '\t' <= ch <= '\r' || ch == ' '
      case 'S' => !('\t' <= ch <= '\r' || ch == ' ')
      case 'w' => 'a' <= ch <= 'z' || 'A' <= ch <= 'Z' || '0' <= ch <= '9' || ch == '_'
      case 'W' => !('a' <= ch <= 'z' || 'A' <= ch <= 'Z' || '0' <= ch <= '9' || ch == '_')
      case 'f' => ch == '\U{000C}'
      case 'n' => ch == '\n'
      case 'r' => ch == '\r'
      case 't' => ch == '\t'
      case 'v' => ch == '\U{000B}'
      case _ => InPunctuationRanges(it.c) && ch == it.c
  }

  /** The matcher's test of one character is membership in what the atom stands for. */
  lemma AtomTestExact(it: Item, ch: char)
    ensures AtomMatchesChar(it.escaped, it.c, ch) <==> AtomMeans(it, ch)
  {
    PunctuationBlocks(it.c);
  }

  ghost predicate ValidItems(items: seq<Item>) {
    forall i :: 0 <= i < |items| ==> ValidItem(items[i])
  }

  predicate Allowed(repeat: Repeat, n: nat) {
    match repeat
    case Once => n == 1
    case Optional => n <= 1
    case Star => true
    case Plus => n >= 1
  }

  /** The item matches each of the first `n` characters of `s`. */
  ghost predicate Covers(it: Item, n: nat, s: string) {
    n <= |s| && forall j :: 0 <= j < n ==> AtomMeans(it, s[j])
  }

  /** `items`, repeated `counts` times each, match a prefix of `s` (all of it if `toEnd`). */
  ghost predicate MatchesWith(items: seq<Item>, counts: seq<nat>, toEnd: bool, s: string) {
    |counts| == |items| &&
    if items == [] then toEnd ==> s == []
    else
      && Allowed(items[0].repeat, counts[0]) && Covers(items[0], counts[0], s)
      && MatchesWith(items[1..], counts[1..], toEnd, s[counts[0]..])
  }

  ghost predicate MatchesHead(items: seq<Item>, toEnd: bool, s: string) {
    exists counts: seq<nat> :: MatchesWith(items, counts, toEnd, s)
  }

  /** Some substring of `s` matches the pattern. */
  ghost predicate MatchesAnywhere(p: Pattern, s: string) {
    exists i :: 0 <= i <= |s| && (p.fromStart ==> i == 0) && MatchesHead(p.items, p.toEnd, s[i..])
  }

  // ------------------------------------------------ concrete syntax

  function RepeatText(repeat: Repeat): string {
    match repeat
    case Once => ""
    case Optional => "?"
    case Star => "*"
    case Plus => "+"
  }

  function AtomText(it: Item): string {
    if it.escaped then ['\\', it.c] else [it.c]
  }

  function ItemText(it: Item): string {
    AtomText(it) + RepeatText(it.repeat)
  }

  function TailText(items: seq<Item>, toEnd: bool): string {
    if items == [] then (if toEnd then "$" else "") else ItemText(items[0]) + TailText(items[1..], toEnd)
  }

  function Text(p: Pattern): string {
    (if p.fromStart then "^" else "") + TailText(p.items, p.toEnd)
  }

  /** The left-to-right check of `ValidateRegex` beyond a leading '^'. */
  predicate Scan(r: string, prevRepeatable: bool) {
    if r == [] then true
    else if r[0] == '\\' then |r| >= 2 && IsValidEscape(r[1]) && Scan(r[2..], true)
    else CharAccepted(r, false, prevRepeatable) && Scan(r[1..], Repeatable(r[0]))
  }

  predicate CharAccepted(r: string, first: bool, prevRepeatable: bool)
    requires r != []
  {
    && r[0] != '\0'
    && !(r[0] == '^' && !first)
    && !(r[0] == '$' && |r| != 1)
    && !IsUnsupported(r[0])
    && !(IsRepeat(r[0]) && !prevRepeatable)
  }

  predicate Repeatable(ch: char) {
    !(ch == '^' || ch == '$' || IsRepeat(ch))
  }

  function ToRepeat(ch: char): Repeat {
    if ch == '?' then Optional else if ch == '*' then Star else if ch == '+' then Plus else Once
  }

  /** The text after the first atom, and after its repetition character if it has one. */
  function AfterAtom(r: string): string
    requires |r| >= 2 || (r != [] && r[0] != '\\')
  {
    if r[0] == '\\' then r[2..] else r[1..]
  }

  function FirstItem(r: string): Item
    requires |r| >= 2 || (r != [] && r[0] != '\\')
  {
    Item(r[0] == '\\', if r[0] == '\\' then r[1] else r[0], ToRepeat(At(AfterAtom(r), 0)))
  }

  function AfterItem(r: string): string
    requires |r| >= 2 || (r != [] && r[0] != '\\')
  {
    if IsRepeat(At(AfterAtom(r), 0)) then AfterAtom(r)[1..] else AfterAtom(r)
  }

  lemma ScanForgets(r: string)
    requires Scan(r, true) && !IsRepeat(At(r, 0))
    ensures Scan(r, false)
  {
  }

  lemma FirstAtom(r: string)
    requires Scan(r, false) && r != [] && r[0] != '$'
    ensures |r| >= 2 || r[0] != '\\'
    ensures ValidItem(FirstItem(r)) && Scan(AfterAtom(r), true)
  {
  }

  lemma AtomSplit(r: string)
    requires |r| >= 2 || (r != [] && r[0] != '\\')
    ensures r == AtomText(FirstItem(r)) + AfterAtom(r)
  {
  }

  lemma RepeatSplit(r: string)
    requires |r| >= 2 || (r != [] && r[0] != '\\')
    ensures AfterAtom(r) == RepeatText(FirstItem(r).repeat) + AfterItem(r)
  {
  }

  lemma Associative(a: string, b: string, c: string)
    ensures a + (b + c) == (a + b) + c
  {
  }

  lemma ItemSplit(r: string)
    requires |r| >= 2 || (r != [] && r[0] != '\\')
    ensures r == ItemText(FirstItem(r)) + AfterItem(r)
  {
    AtomSplit(r);
    RepeatSplit(r);
    var it, after := FirstItem(r), AfterItem(r);
    Associative(AtomText(it), RepeatText(it.repeat), after);
  }

  lemma RepeatScanned(r: string, rest: string)
    requires Scan(r, true) && rest == if IsRepeat(At(r, 0)) then r[1..] else r
    ensures Scan(rest, false)
  {
    if !IsRepeat(At(r, 0)) {
      ScanForgets(r);
    }
  }

  lemma FirstSplit(r: string)
    requires Scan(r, false) && r != [] && r[0] != '$'
    ensures |r| >= 2 || r[0] != '\\'
    ensures ValidItem(FirstItem(r)) && r == ItemText(FirstItem(r)) + AfterItem(r)
    ensures Scan(AfterItem(r), false)
  {
    FirstAtom(r);
    RepeatScanned(AfterAtom(r), AfterItem(r));
    ItemSplit(r);
  }

  /** The items a scanned text stands for. */
  function Parse(r: string): (seq<Item>, bool)
    requires Scan(r, false)
    decreases |r|
  {
    if r == [] then ([], false)
    else if r[0] == '$' then ([], true)
    else
      FirstSplit(r);
      var (items, toEnd) := Parse(AfterItem(r));
      ([FirstItem(r)] + items, toEnd)
  }

  /** Every scanned text is the text of the valid items it parses to. */
  lemma {:induction false} ParseThenText(r: string)
    requires Scan(r, false)
    ensures ValidItems(Parse(r).0) && TailText(Parse(r).0, Parse(r).1) == r
    decreases |r|
  {
    if r != [] && r[0] != '$' {
      FirstSplit(r);
      ParseThenText(AfterItem(r));
      var rest := Parse(AfterItem(r)).0;
      assert ([FirstItem(r)] + rest)[1..] == rest;
    }
  }

  /** What follows an item never starts with a repetition character. */
  lemma TailStart(items: seq<Item>, toEnd: bool)
    requires ValidItems(items)
    ensures !IsRepeat(At(TailText(items, toEnd), 0)) && At(TailText(items, toEnd), 0) != '^'
    ensures items == [] <==> TailText(items, toEnd) == (if toEnd then "$" else "")
    ensures items != [] ==> TailText(items, toEnd) != [] && TailText(items, toEnd)[0] != '$'
  {
  }

  lemma {:induction false} TextScans(items: seq<Item>, toEnd: bool, prev: bool)
    requires ValidItems(items)
    ensures Scan(TailText(items, toEnd), prev)
  {
    if items != [] {
      var rest := TailText(items[1..], toEnd);
      TextScans(items[1..], toEnd, true);
      TextScans(items[1..], toEnd, false);
      ItemScans(items[0], rest, prev);
    }
  }

  lemma ItemScans(it: Item, rest: string, prev: bool)
    requires ValidItem(it) && Scan(rest, true) && Scan(rest, false)
    ensures Scan(ItemText(it) + rest, prev)
  {
    var tail := RepeatText(it.repeat) + rest;
    assert Scan(tail, true) by {
      if it.repeat != Once {
        assert tail[1..] == rest;
      } else {
        assert tail == rest;
      }
    }
    var r := ItemText(it) + rest;
    if it.escaped {
      assert r[2..] == tail;
    } else {
      assert r[1..] == tail;
    }
  }

  lemma TextAtom(it: Item, tail: string)
    requires ValidItem(it)
    ensures var r := AtomText(it) + tail;
            && (|r| >= 2 || (r != [] && r[0] != '\\')) && r[0] != '$'
            && AfterAtom(r) == tail && (r[0] == '\\') == it.escaped && (if it.escaped then r[1] else r[0]) == it.c
  {
    var r := AtomText(it) + tail;
    if it.escaped {
      assert r[2..] == tail;
    } else {
      assert r[1..] == tail;
    }
  }

  lemma TextRepeat(repeat: Repeat, rest: string)
    requires !IsRepeat(At(rest, 0))
    ensures var tail := RepeatText(repeat) + rest;
            ToRepeat(At(tail, 0)) == repeat && rest == if IsRepeat(At(tail, 0)) then tail[1..] else tail
  {
    var tail := RepeatText(repeat) + rest;
    if repeat == Once {
      assert tail == rest;
    } else {
      assert tail[1..] == rest;
    }
  }

  /** The first item of a text and what follows it are recovered from the text alone. */
  lemma TextSplit(items: seq<Item>, toEnd: bool)
    requires ValidItems(items) && items != []
    ensures var r := TailText(items, toEnd);
            && (|r| >= 2 || (r != [] && r[0] != '\\')) && r[0] != '$'
            && FirstItem(r) == items[0] && AfterItem(r) == TailText(items[1..], toEnd)
  {
    var it, rest := items[0], TailText(items[1..], toEnd);
    TailStart(items[1..], toEnd);
    var tail := RepeatText(it.repeat) + rest;
    Associative(AtomText(it), RepeatText(it.repeat), rest);
    TextAtom(it, tail);
    TextRepeat(it.repeat, rest);
  }

  /** Parsing undoes printing, so a text stands for at most one list of valid items. */
  lemma {:induction false} TextThenParse(items: seq<Item>, toEnd: bool)
    requires ValidItems(items)
    ensures Scan(TailText(items, toEnd), false) && Parse(TailText(items, toEnd)) == (items, toEnd)
  {
    TextScans(items, toEnd, false);
    if items != [] {
      TextSplit(items, toEnd);
      TextThenParse(items[1..], toEnd);
      assert items == [items[0]] + items[1..];
    }
  }

  // ------------------------------------------------ whole patterns

  /** The verdict of `ValidateRegex`. */
  predicate Checked(regex: string) {
    if At(regex, 0) == '^' then Scan(regex[1..], false) else Scan(regex, false)
  }

  function PatternOf(regex: string): Pattern
    requires Checked(regex)
  {
    if At(regex, 0) == '^'
    then var (items, toEnd) := Parse(regex[1..]); Pattern(true, items, toEnd)
    else var (items, toEnd) := Parse(regex); Pattern(false, items, toEnd)
  }

  lemma CheckedIsText(regex: string)
    requires Checked(regex)
    ensures ValidItems(PatternOf(regex).items) && Text(PatternOf(regex)) == regex
  {
    ParseThenText(if At(regex, 0) == '^' then regex[1..] else regex);
  }

  lemma TextIsChecked(p: Pattern)
    requires ValidItems(p.items)
    ensures Checked(Text(p)) && PatternOf(Text(p)) == p
  {
    TextThenParse(p.items, p.toEnd);
    TailStart(p.items, p.toEnd);
    var tail := TailText(p.items, p.toEnd);
    if p.fromStart {
      assert Text(p)[1..] == tail;
    } else {
      assert Text(p) == tail;
    }
  }

  /** Unfolding the meaning of a nonempty list of items at its first item. */
  ghost predicate RepeatedThen(it: Item, n: nat, items: seq<Item>, toEnd: bool, s: string) {
    Allowed(it.repeat, n) && Covers(it, n, s) && MatchesHead(items, toEnd, s[n..])
  }

  lemma HeadUnfolds(items: seq<Item>, toEnd: bool, s: string)
    requires items != []
    ensures MatchesHead(items, toEnd, s) <==> exists n: nat :: RepeatedThen(items[0], n, items[1..], toEnd, s)
  {
    if MatchesHead(items, toEnd, s) {
      var counts: seq<nat> :| MatchesWith(items, counts, toEnd, s);
      assert MatchesWith(items[1..], counts[1..], toEnd, s[counts[0]..]);
      assert RepeatedThen(items[0], counts[0], items[1..], toEnd, s);
    }
    if exists n: nat :: RepeatedThen(items[0], n, items[1..], toEnd, s) {
      var n: nat :| RepeatedThen(items[0], n, items[1..], toEnd, s);
      var counts: seq<nat> :| MatchesWith(items[1..], counts, toEnd, s[n..]);
      assert ([n] + counts)[1..] == counts;
      assert MatchesWith(items, [n] + counts, toEnd, s);
    }
  }

  lemma HeadOfList(it: Item, rest: seq<Item>, toEnd: bool, s: string)
    ensures MatchesHead([it] + rest, toEnd, s) <==> exists n: nat :: RepeatedThen(it, n, rest, toEnd, s)
  {
    assert ([it] + rest)[0] == it && ([it] + rest)[1..] == rest;
    HeadUnfolds([it] + rest, toEnd, s);
  }

  /** An atom without a repeat matches one character. */
  lemma OnceMeans(it: Item, rest: seq<Item>, toEnd: bool, s: string)
    requires it.repeat == Once
    ensures MatchesHead([it] + rest, toEnd, s) <==> s != [] && AtomMeans(it, s[0]) && MatchesHead(rest, toEnd, s[1..])
  {
    HeadOfList(it, rest, toEnd, s);
    assert RepeatedThen(it, 1, rest, toEnd, s) <==> s != [] && AtomMeans(it, s[0]) && MatchesHead(rest, toEnd, s[1..]);
  }

  /** x? is x or nothing. */
  lemma OptionalMeans(it: Item, rest: seq<Item>, toEnd: bool, s: string)
    requires it.repeat == Optional
    ensures MatchesHead([it] + rest, toEnd, s) <==>
              MatchesHead(rest, toEnd, s) || MatchesHead([it.(repeat := Once)] + rest, toEnd, s)
  {
    HeadOfList(it, rest, toEnd, s);
    OnceMeans(it.(repeat := Once), rest, toEnd, s);
    assert s[0..] == s;
    assert RepeatedThen(it, 0, rest, toEnd, s) <==> MatchesHead(rest, toEnd, s);
    assert RepeatedThen(it, 1, rest, toEnd, s) <==> s != [] && AtomMeans(it, s[0]) && MatchesHead(rest, toEnd, s[1..]);
  }

  /** One character more of a repeated atom. */
  lemma OneMore(it: Item, n: nat, rest: seq<Item>, toEnd: bool, s: string)
    requires it.repeat == Star || it.repeat == Plus
    ensures RepeatedThen(it, n + 1, rest, toEnd, s) <==>
              s != [] && AtomMeans(it, s[0]) && RepeatedThen(it.(repeat := Star), n, rest, toEnd, s[1..])
  {
    if s != [] {
      var t := s[1..];
      assert n + 1 <= |s| ==> s[n + 1..] == t[n..];
      if Covers(it, n + 1, s) {
        forall j | 0 <= j < n ensures AtomMeans(it, t[j]) {
          assert t[j] == s[j + 1];
        }
      }
      if AtomMeans(it, s[0]) && Covers(it.(repeat := Star), n, t) {
        forall j | 0 <= j < n + 1 ensures AtomMeans(it, s[j]) {
          assert j > 0 ==> s[j] == t[j - 1];
        }
      }
    }
  }

  /** x+ is x followed by x*. */
  lemma PlusMeans(it: Item, rest: seq<Item>, toEnd: bool, s: string)
    requires it.repeat == Plus
    ensures MatchesHead([it] + rest, toEnd, s) <==>
              MatchesHead([it.(repeat := Once)] + ([it.(repeat := Star)] + rest), toEnd, s)
  {
    var star := it.(repeat := Star);
    HeadOfList(it, rest, toEnd, s);
    OnceMeans(it.(repeat := Once), [star] + rest, toEnd, s);
    if s != [] {
      HeadOfList(star, rest, toEnd, s[1..]);
    }
    if MatchesHead([it] + rest, toEnd, s) {
      var n: nat :| RepeatedThen(it, n, rest, toEnd, s);
      OneMore(it, n - 1, rest, toEnd, s);
    }
    if s != [] && AtomMeans(it, s[0]) && MatchesHead([star] + rest, toEnd, s[1..]) {
      var n: nat :| RepeatedThen(star, n, rest, toEnd, s[1..]);
      OneMore(it, n, rest, toEnd, s);
    }
  }

  /** x* is nothing, or x followed by x*. */
  lemma StarMeans(it: Item, rest: seq<Item>, toEnd: bool, s: string)
    requires it.repeat == Star
    ensures MatchesHead([it] + rest, toEnd, s) <==>
              MatchesHead(rest, toEnd, s) || MatchesHead([it.(repeat := Once)] + ([it] + rest), toEnd, s)
  {
    assert s[0..] == s;
    HeadOfList(it, rest, toEnd, s);
    OnceMeans(it.(repeat := Once), [it] + rest, toEnd, s);
    if s != [] {
      HeadOfList(it, rest, toEnd, s[1..]);
    }
    assert RepeatedThen(it, 0, rest, toEnd, s) <==> MatchesHead(rest, toEnd, s);
    if MatchesHead([it] + rest, toEnd, s) {
      var n: nat :| RepeatedThen(it, n, rest, toEnd, s);
      if n > 0 {
        OneMore(it, n - 1, rest, toEnd, s);
      }
    }
    if s != [] && AtomMeans(it, s[0]) && MatchesHead([it] + rest, toEnd, s[1..]) {
      var n: nat :| RepeatedThen(it, n, rest, toEnd, s[1..]);
      OneMore(it, n, rest, toEnd, s);
    }
  }

  lemma HeadOfNothing(toEnd: bool, s: string)
    ensures MatchesHead([], toEnd, s) <==> (toEnd ==> s == [])
  {
    assert MatchesWith([], [], toEnd, s) <==> (toEnd ==> s == []);
  }
}
