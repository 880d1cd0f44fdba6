/** The syntax check and the matcher themselves, as the framework runs them. */
module RegexMatcher {
  import opened Options
  import opened SimpleRegex

  const SIZE_MAX: nat := 0xFFFF_FFFF_FFFF_FFFF

  /** The verdict from position `i` on, with what the loop has seen so far. */
  ghost predicate CheckedFrom(regex: string, i: nat, prevRepeatable: bool) {
    if i == 0 then Checked(regex) else i <= |regex| && Scan(regex[i..], prevRepeatable)
  }

  lemma EscapeStep(regex: string, i: nat, prev: bool)
    requires i < |regex| && regex[i] == '\\' && (i == 0 ==> !prev)
    ensures CheckedFrom(regex, i, prev) <==>
              i + 1 < |regex| && IsValidEscape(regex[i + 1]) && CheckedFrom(regex, i + 2, true)
  {
    if i > 0 && i + 1 < |regex| {
      assert regex[i..][2..] == regex[i + 2..];
    }
  }

  /** The errors the loop reports for an unescaped character. */
  predicate Rejected(regex: string, i: nat, prev: bool)
    requires i < |regex|
  {
    || (regex[i] == '^' && i > 0)
    || (regex[i] == '$' && At(regex, i + 1) != '\0')
    || IsUnsupported(regex[i])
    || (IsRepeat(regex[i]) && !prev)
  }

  lemma CharStep(regex: string, i: nat, prev: bool)
    requires CString(regex) && i < |regex| && regex[i] != '\\' && (i == 0 ==> !prev)
    ensures CheckedFrom(regex, i, prev) <==>
              !Rejected(regex, i, prev) && CheckedFrom(regex, i + 1, Repeatable(regex[i]))
  {
    assert regex[i..][1..] == regex[i + 1..];
    if i == 0 {
      assert regex[0..] == regex;
    }
  }

  method ValidateRegex(regex: Option<string>) returns (valid: bool)
    requires regex.Some? ==> CString(regex.value)
    ensures valid <==> regex.Some? && exists p: Pattern :: ValidItems(p.items) && Text(p) == regex.value
  {
    if regex.None? {
      return false;
    }
    var r := regex.value;
    VerdictMeans(r);
    valid := true;
    var prevRepeatable := false;
    var i := 0;
    while i < |r|
      invariant i <= |r| && (i == 0 ==> !prevRepeatable)
      invariant Checked(r) <==> valid && CheckedFrom(r, i, prevRepeatable)
    {
      if r[i] == '\\' {
        EscapeStep(r, i, prevRepeatable);
        i := i + 1;
        if i == |r| {
          return false;
        }
        if !IsValidEscape(r[i]) {
          valid := false;
        }
        prevRepeatable := true;
      } else {
        CharStep(r, i, prevRepeatable);
        var ch := r[i];
        if ch == '^' && i > 0 {
          valid := false;
        } else if ch == '$' && At(r, i + 1) != '\0' {
          valid := false;
        } else if IsUnsupported(ch) {
          valid := false;
        } else if IsRepeat(ch) && !prevRepeatable {
          valid := false;
        }
        prevRepeatable := Repeatable(ch);
      }
      i := i + 1;
    }
  }

  /** The checked texts are exactly the texts of patterns with valid items, and each stands
      for one pattern. */
  lemma VerdictMeans(regex: string)
    ensures Checked(regex) <==> exists p: Pattern :: ValidItems(p.items) && Text(p) == regex
    ensures forall p: Pattern :: ValidItems(p.items) && Text(p) == regex ==> Checked(regex) && PatternOf(regex) == p
  {
    if Checked(regex) {
      CheckedIsText(regex);
    }
    forall p: Pattern | ValidItems(p.items) && Text(p) == regex ensures Checked(regex) && PatternOf(regex) == p {
      TextIsChecked(p);
    }
  }

  /** A repeated atom followed by the rest of a pattern, at the head of `str`. */
  method MatchRepetitionAndRegexAtHead(
    escaped: bool, c: char, repeat: char, regex: string, str: string, ghost items: seq<Item>, ghost toEnd: bool)
    returns (b: bool)
    requires IsRepeat(repeat) && ValidItems(items) && regex == TailText(items, toEnd)
    requires CString(str) && |str| < SIZE_MAX
    ensures b <==> exists n: nat :: RepeatedThen(Item(escaped, c, ToRepeat(repeat)), n, items, toEnd, str)
    decreases |regex|, 1
  {
    ghost var it := Item(escaped, c, ToRepeat(repeat));
    var minCount := if repeat == '+' then 1 else 0;
    var maxCount := if repeat == '?' then 1 else SIZE_MAX - 1;
    var i := 0;
    while i <= maxCount
      invariant 0 <= i <= |str| && Covers(it, i, str)
      invariant forall n: nat :: n < i ==> !RepeatedThen(it, n, items, toEnd, str)
      decreases maxCount - i
    {
      if i >= minCount {
        var found := MatchRegexAtHead(regex, str[i..], items, toEnd);
        if found {
          assert RepeatedThen(it, i, items, toEnd, str);
          return true;
        }
      }
      assert !RepeatedThen(it, i, items, toEnd, str);
      if i < |str| {
        AtomTestExact(it, str[i]);
      }
      if At(str, i) == '\0' || !AtomMatchesChar(escaped, c, str[i]) {
        assert forall n: nat :: n > i ==> !Covers(it, n, str);
        return false;
      }
      i := i + 1;
    }
    return false;
  }

  /** Whether the pattern matches a prefix of `str`. */
  method MatchRegexAtHead(regex: string, str: string, ghost items: seq<Item>, ghost toEnd: bool) returns (b: bool)
    requires ValidItems(items) && regex == TailText(items, toEnd)
    requires CString(str) && |str| < SIZE_MAX
    ensures b <==> MatchesHead(items, toEnd, str)
    decreases |regex|, 0
  {
    TailStart(items, toEnd);
    HeadOfNothing(toEnd, str);
    if At(regex, 0) == '\0' {
      return true;
    }
    if regex[0] == '$' {
      return At(str, 0) == '\0';
    }
    TextSplit(items, toEnd);
    HeadUnfolds(items, toEnd, str);
    var escaped := regex[0] == '\\';
    var r := if escaped then regex[1..] else regex;
    assert r[1..] == AfterAtom(regex);
    if IsRepeat(At(r, 1)) {
      b := MatchRepetitionAndRegexAtHead(escaped, r[0], r[1], r[2..], str, items[1..], toEnd);
    } else {
      if str != [] {
        AtomTestExact(items[0], str[0]);
      }
      if At(str, 0) == '\0' || !AtomMatchesChar(escaped, r[0], str[0]) {
        return false;
      }
      b := MatchRegexAtHead(r[1..], str[1..], items[1..], toEnd);
      assert b ==> RepeatedThen(items[0], 1, items[1..], toEnd, str);
    }
  }

  /** Whether the pattern matches any substring of `str`. */
  method MatchRegexAnywhere(regex: Option<string>, str: Option<string>) returns (b: bool)
    requires regex.Some? ==> Checked(regex.value)
    requires str.Some? ==> CString(str.value) && |str.value| < 0xFFFF_FFFF_FFFF_FFFF
    ensures b <==> regex.Some? && str.Some? && MatchesAnywhere(PatternOf(regex.value), str.value)
  {
    if regex.None? || str.None? {
      return false;
    }
    CheckedIsText(regex.value);
    b := Search(regex.value, str.value, PatternOf(regex.value));
  }

  method Search(r: string, s: string, ghost p: Pattern) returns (b: bool)
    requires ValidItems(p.items) && r == Text(p)
    requires CString(s) && |s| < SIZE_MAX
    ensures b <==> MatchesAnywhere(p, s)
  {
    TailStart(p.items, p.toEnd);
    if At(r, 0) == '^' {
      b := MatchRegexAtHead(r[1..], s, p.items, p.toEnd);
      assert s[0..] == s;
      return;
    }
    var i := 0;
    while true
      invariant 0 <= i <= |s|
      invariant forall j :: 0 <= j < i ==> !MatchesHead(p.items, p.toEnd, s[j..])
      decreases |s| - i
    {
      var found := MatchRegexAtHead(r, s[i..], p.items, p.toEnd);
      if found {
        return true;
      }
      if At(s, i) == '\0' {
        return false;
      }
      i := i + 1;
    }
  }

  // ------------------------------------------------ full matches

  /** The pattern `RE::Init` derives for full matches. */
  function FullText(t: string): string {
    (if t == [] || t[0] != '^' then "^" else "") + t + (if t == [] || t[|t| - 1] != '$' then "$" else "")
  }

  /** The text ends in '$', but as an escaped character. */
  predicate EndsInEscapedDollar(p: Pattern) {
    !p.toEnd && p.items != [] && p.items[|p.items| - 1] == Item(true, '$', Once)
  }

  lemma {:induction false} LastChar(items: seq<Item>)
    requires ValidItems(items) && items != []
    ensures var t := TailText(items, false);
            && t != [] && (t[|t| - 1] == '$' <==> items[|items| - 1] == Item(true, '$', Once))
            && TailText(items, true) == t + "$"
  {
    if |items| > 1 {
      LastChar(items[1..]);
    } else {
      assert items[1..] == [];
    }
  }

  lemma FullTextJoins(fromStart: bool, tail: string)
    requires At(tail, 0) != '^'
    ensures FullText((if fromStart then "^" else "") + tail)
         == "^" + (tail + (if tail == [] || tail[|tail| - 1] != '$' then "$" else ""))
  {
    var t := (if fromStart then "^" else "") + tail;
    var dollar := if tail == [] || tail[|tail| - 1] != '$' then "$" else "";
    if fromStart {
      assert "" + t + dollar == "^" + (tail + dollar);
    } else {
      assert t == tail;
      assert "^" + t + dollar == "^" + (tail + dollar);
    }
  }

  lemma DollarAdded(p: Pattern)
    requires ValidItems(p.items)
    ensures var t := TailText(p.items, p.toEnd);
            t + (if t == [] || t[|t| - 1] != '$' then "$" else "") == TailText(p.items, !EndsInEscapedDollar(p))
  {
    if p.items == [] {
      assert !EndsInEscapedDollar(p);
    } else {
      LastChar(p.items);
      var open := TailText(p.items, false);
      if p.toEnd {
        assert (open + "$")[|open|] == '$';
        assert (open + "$") + "" == open + "$";
      } else if EndsInEscapedDollar(p) {
        assert open + "" == open;
      }
    }
  }

  lemma FullTextMeans(p: Pattern)
    requires ValidItems(p.items)
    ensures FullText(Text(p)) == Text(Pattern(true, p.items, !EndsInEscapedDollar(p)))
  {
    TailStart(p.items, p.toEnd);
    FullTextJoins(p.fromStart, TailText(p.items, p.toEnd));
    DollarAdded(p);
  }

  /** A character the item matches. */
  function Sample(it: Item): char {
    if it.escaped then
      match it.c
      case 'd' => '0'
      case 'D' => 'a'
      case 'f' => '\U{000C}'
      case 'n' => '\n'
      case 'r' => '\r'
      case 's' => ' '
      case 'S' => 'a'
      case 't' => '\t'
      case 'v' => '\U{000B}'
      case 'w' => 'a'
      case 'W' => ' '
      case _ => it.c
    else it.c
  }

  lemma SampleMatches(it: Item)
    requires ValidItem(it)
    ensures AtomMeans(it, Sample(it))
  {
    EscapesAre(it.c);
  }

  ghost function Samples(items: seq<Item>): string {
    if items == [] then "" else [Sample(items[0])] + Samples(items[1..])
  }

  lemma SampleThen(items: seq<Item>, rest: string)
    requires items != [] && ValidItem(items[0]) && MatchesHead(items[1..], false, rest)
    ensures MatchesHead(items, false, [Sample(items[0])] + rest)
  {
    var text := [Sample(items[0])] + rest;
    assert text[1..] == rest;
    SampleMatches(items[0]);
    assert RepeatedThen(items[0], 1, items[1..], false, text);
    HeadUnfolds(items, false, text);
  }

  lemma {:induction false} SamplesMatch(items: seq<Item>, s: string)
    requires ValidItems(items)
    ensures MatchesHead(items, false, Samples(items) + s)
  {
    if items == [] {
      HeadOfNothing(false, Samples(items) + s);
    } else {
      SamplesMatch(items[1..], s);
      var rest := Samples(items[1..]) + s;
      assert Samples(items) + s == [Sample(items[0])] + rest;
      SampleThen(items, rest);
    }
  }

  lemma {:induction false} LastMustMatch(items: seq<Item>, counts: seq<nat>, s: string)
    requires MatchesWith(items, counts, true, s) && items != [] && items[|items| - 1].repeat == Once
    ensures s != [] && AtomMeans(items[|items| - 1], s[|s| - 1])
  {
    if |items| > 1 {
      LastMustMatch(items[1..], counts[1..], s[counts[0]..]);
    } else {
      assert MatchesWith([], [], true, s[1..]);
    }
  }

  lemma {:induction false} SamplesAreText(items: seq<Item>)
    requires ValidItems(items)
    ensures CString(Samples(items))
  {
    if items != [] {
      SamplesAreText(items[1..]);
      SampleIsText(items[0]);
    }
  }

  lemma SampleIsText(it: Item)
    requires ValidItem(it)
    ensures Sample(it) != '\0'
  {
  }

  ghost predicate FullMatchCorrect(p: Pattern) {
    forall s :: CString(s) ==>
      (MatchesAnywhere(Pattern(true, p.items, !EndsInEscapedDollar(p)), s) <==> MatchesHead(p.items, true, s))
  }

  /** The derived pattern accepts exactly the strings matched as a whole if and only if the
      text does not end in an escaped '$'. */
  lemma FullMatchExactly(p: Pattern)
    requires ValidItems(p.items)
    ensures FullMatchCorrect(p) <==> !EndsInEscapedDollar(p)
  {
    if EndsInEscapedDollar(p) {
      var s := Samples(p.items) + "a";
      SamplesMatch(p.items, "a");
      SamplesAreText(p.items);
      assert s[0..] == s;
      assert MatchesAnywhere(Pattern(true, p.items, false), s);
      if MatchesHead(p.items, true, s) {
        var counts: seq<nat> :| MatchesWith(p.items, counts, true, s);
        LastMustMatch(p.items, counts, s);
      }
    } else {
      forall s ensures MatchesAnywhere(Pattern(true, p.items, true), s) <==> MatchesHead(p.items, true, s) {
        assert s[0..] == s;
      }
    }
  }

  class RE {
    var pattern: string
    var fullPattern: string
    var isValid: bool

    ghost predicate Ready()
      reads this
    {
      isValid ==> Checked(pattern) && fullPattern == FullText(pattern)
    }

    constructor (regex: Option<string>)
      requires regex.Some? ==> CString(regex.value)
      ensures Ready()
      ensures isValid <==> regex.Some? && exists p: Pattern :: ValidItems(p.items) && Text(p) == regex.value
      ensures isValid ==> pattern == regex.value
    {
      fullPattern, pattern := "", "";
      if regex.Some? {
        pattern := regex.value;
      }
      var valid := ValidateRegex(regex);
      isValid := valid;
      if valid {
        fullPattern := FullText(regex.value);
        VerdictMeans(regex.value);
      }
    }

    method PartialMatch(str: string) returns (b: bool)
      requires Ready() && CString(str) && |str| < 0xFFFF_FFFF_FFFF_FFFF
      ensures b <==> isValid && MatchesAnywhere(PatternOf(pattern), str)
    {
      if !isValid {
        return false;
      }
      b := MatchRegexAnywhere(Some(pattern), Some(str));
    }

    method FullMatch(str: string) returns (b: bool)
      requires Ready() && CString(str) && |str| < 0xFFFF_FFFF_FFFF_FFFF
      ensures b ==> isValid
      ensures isValid ==>
                var p := PatternOf(pattern);
                b <==> MatchesHead(p.items, !EndsInEscapedDollar(p), str)
    {
      if !isValid {
        return false;
      }
      ghost var p := PatternOf(pattern);
      CheckedIsText(pattern);
      FullTextMeans(p);
      ghost var full := Pattern(true, p.items, !EndsInEscapedDollar(p));
      TextIsChecked(full);
      b := MatchRegexAnywhere(Some(fullPattern), Some(str));
      assert str[0..] == str;
    }
  }
}
