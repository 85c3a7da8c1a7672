/** fnmatch.c: shell pattern matching, against a declarative reading of the pattern.

    A pattern is read as a list of tokens; a string matches when it can be cut into one piece per token.
    The backtracking matcher is proved to decide exactly this. */
module Fnmatch {

  const EOS: char := '\0'

  /** Strings as C sees them: no NUL inside. */
  type cstring = s: string | EOS !in s

  /** FNM_NOESCAPE, FNM_PATHNAME, FNM_LEADING_DIR, FNM_CASEFOLD.  FNM_PERIOD is passed beside them,
      because the matcher drops it when it recurses. */
  datatype Flags = Flags(noescape: bool, pathname: bool, leadingDir: bool, casefold: bool)

  const FNM_NOMATCH := 1

  /** The character at i, or the terminator. */
  function At(s: cstring, i: nat): (c: char)
    requires i <= |s|
    ensures c == EOS <==> i == |s|
  {
    if i < |s| then
      assert s[i] in s;
      s[i]
    else EOS
  }

  function ToLower(c: char): char {
    if 'A' <= c <= 'Z' then (c as int + 32) as char else c
  }

  function Fold(c: char, f: Flags): char {
    if f.casefold then ToLower(c) else c
  }

  // ---------- reading a pattern ----------

  /** lo .. hi in a bracket; a single character is a range of one. */
  datatype Range = Range(lo: char, hi: char)

  /** raw is true for a character that stands for itself without a backslash. */
  datatype Token = Lit(c: char, raw: bool) | Any | Star | Bracket(negate: bool, ranges: seq<Range>) | Never

  /** A bracket ends properly, or the pattern ends first, or a slash comes first under FNM_PATHNAME. */
  datatype BracketParse = Closed(ranges: seq<Range>, next: nat) | Unterminated | SlashInside

  function Quotes(c: char, f: Flags): bool {
    c == '\\' && !f.noescape
  }

  /** The rest of a bracket whose next character is at i. */
  function ParseRanges(p: cstring, i: nat, f: Flags): (b: BracketParse)
    requires i <= |p|
    ensures b.Closed? ==> i < b.next <= |p|
    decreases |p| - i, 0
  {
    var quoted := Quotes(At(p, i), f);
    var i1 := if quoted then i + 1 else i;
    var c := At(p, i1);
    if c == EOS then Unterminated
    else if c == '/' && f.pathname then SlashInside
    else
      match RangeEnd(p, i1 + 1, f)
      case NoRange => CloseOrContinue(p, Range(c, c), i1 + 1, f)
      case EndsPattern => Unterminated
      case End(hi, k) => CloseOrContinue(p, Range(c, hi), k, f)
  }

  datatype RangeEndParse = NoRange | EndsPattern | End(hi: char, next: nat)

  /** "-x" at i, where x is neither the closing bracket nor the end. */
  function RangeEnd(p: cstring, i: nat, f: Flags): (r: RangeEndParse)
    requires i <= |p|
    ensures r.End? ==> i < r.next <= |p| && r.hi != EOS
  {
    if At(p, i) == '-' && At(p, i + 1) != EOS && At(p, i + 1) != ']' then
      if Quotes(At(p, i + 1), f) then
        if At(p, i + 2) == EOS then EndsPattern else End(At(p, i + 2), i + 3)
      else End(At(p, i + 1), i + 2)
    else NoRange
  }

  /** One range has been read up to k. */
  function CloseOrContinue(p: cstring, range: Range, k: nat, f: Flags): (b: BracketParse)
    requires k <= |p|
    ensures b.Closed? ==> k < b.next <= |p|
    decreases |p| - k, 1
  {
    if At(p, k) == ']' then Closed([range], k + 1)
    else
      match ParseRanges(p, k, f)
      case Closed(ranges, next) => Closed([range] + ranges, next)
      case other => other
  }

  predicate Negates(p: cstring, i: nat)
    requires i <= |p|
  {
    At(p, i) == '!' || At(p, i) == '^'
  }

  /** The bracket whose first character, after '[', is at i. */
  function ParseBracket(p: cstring, i: nat, f: Flags): (b: BracketParse)
    requires i <= |p|
    ensures b.Closed? ==> i < b.next <= |p|
  {
    ParseRanges(p, if Negates(p, i) then i + 1 else i, f)
  }

  /** The token at i, and where the next one starts. */
  function FirstToken(p: cstring, i: nat, f: Flags): (r: (Token, nat))
    requires i < |p|
    ensures i < r.1 <= |p|
  {
    var c := At(p, i);
    if c == '?' then (Any, i + 1)
    else if c == '*' then (Star, i + 1)
    else if c == '[' then
      match ParseBracket(p, i + 1, f)
      case Closed(ranges, next) => (Bracket(Negates(p, i + 1), ranges), next)
      case SlashInside => (Never, |p|)
      case Unterminated => (Lit('[', true), i + 1)
    else if Quotes(c, f) && At(p, i + 1) != EOS then (Lit(At(p, i + 1), false), i + 2)
    else (Lit(c, true), i + 1)
  }

  function Tokens(p: cstring, i: nat, f: Flags): seq<Token>
    requires i <= |p|
    decreases |p| - i
  {
    if i == |p| then []
    else
      var (t, next) := FirstToken(p, i, f);
      [t] + Tokens(p, next, f)
  }

  // ---------- what a token list matches ----------

  predicate Same(c: char, t: char, f: Flags) {
    Fold(c, f) == Fold(t, f)
  }

  predicate InRange(t: char, r: Range, f: Flags) {
    Fold(r.lo, f) <= Fold(t, f) <= Fold(r.hi, f)
  }

  predicate InRanges(t: char, ranges: seq<Range>, f: Flags) {
    exists i :: 0 <= i < |ranges| && InRange(t, ranges[i], f)
  }

  /** A period that FNM_PERIOD protects: at the start, or behind a slash under FNM_PATHNAME. */
  predicate Leading(s: cstring, j: nat, f: Flags, period: bool) {
    period && j < |s| && s[j] == '.' && (j == 0 || (f.pathname && s[j - 1] == '/'))
  }

  /** One character against '?' or a bracket. */
  predicate MatchesOne(t: Token, c: char, f: Flags) {
    match t
    case Any => !(c == '/' && f.pathname)
    case Bracket(negate, ranges) => !(c == '/' && f.pathname) && InRanges(c, ranges, f) != negate
    case Lit(d, _) => Same(d, c, f)
    case _ => false
  }

  /** Before an unquoted slash, or further stars and then such a slash, the matcher does not recurse. */
  predicate KeepsPeriod(rest: seq<Token>, f: Flags) {
    if rest == [] then false
    else if rest[0] == Star then KeepsPeriod(rest[1..], f)
    else f.pathname && rest[0] == Lit('/', true)
  }

  /** ts matches s from j on.  A star takes s[j..k], and the rest matches from k on. */
  ghost predicate M(ts: seq<Token>, s: cstring, j: nat, f: Flags, period: bool)
    requires j <= |s|
    decreases |ts|
  {
    if ts == [] then j == |s| || (f.leadingDir && s[j] == '/')
    else if ts[0] == Star then
      && !Leading(s, j, f, period)
      && exists k: nat | MayTake(s, j, k, f) :: M(ts[1..], s, k, f, period && KeepsPeriod(ts[1..], f))
    else
      && j < |s| && MatchesOne(ts[0], s[j], f)
      && (ts[0].Lit? || !Leading(s, j, f, period))
      && M(ts[1..], s, j + 1, f, period)
  }

  /** A star may take s[j..k]. */
  predicate MayTake(s: cstring, j: nat, k: nat, f: Flags) {
    j <= k <= |s| && (f.pathname ==> forall q :: j <= q < k ==> s[q] != '/')
  }

  ghost predicate StarTakes(rest: seq<Token>, s: cstring, j: nat, k: nat, f: Flags, period: bool) {
    MayTake(s, j, k, f) && M(rest, s, k, f, period && KeepsPeriod(rest, f))
  }

  // ---------- rangematch ----------

  datatype RangeResult = RANGE_MATCH | RANGE_NOMATCH | RANGE_ERROR

  /** What is left to read, with the ranges read so far put back in front. */
  function Prepend(done: seq<Range>, b: BracketParse): BracketParse {
    match b
    case Closed(ranges, next) => Closed(done + ranges, next)
    case other => other
  }

  datatype RangeRead = Failed(result: RangeResult) | Read(range: Range, next: nat)

  /** The first part of the loop body: one character, or two with a dash between. */
  method ReadRange(p: cstring, i: nat, f: Flags) returns (r: RangeRead)
    requires i <= |p|
    ensures match r
            case Failed(result) =>
              && result == (if ParseRanges(p, i, f) == Unterminated then RANGE_ERROR else RANGE_NOMATCH)
              && (ParseRanges(p, i, f) == Unterminated || ParseRanges(p, i, f) == SlashInside)
            case Read(range, next) => i < next <= |p| && ParseRanges(p, i, f) == CloseOrContinue(p, range, next, f)
  {
    var pattern := i;
    var c := At(p, pattern);
    if Quotes(c, f) {
      pattern := pattern + 1;
      c := At(p, pattern);
    }
    if c == EOS {
      return Failed(RANGE_ERROR);
    }
    if c == '/' && f.pathname {
      return Failed(RANGE_NOMATCH);
    }
    pattern := pattern + 1;
    var c2 := if At(p, pattern) == '-' then At(p, pattern + 1) else EOS;
    if c2 == EOS || c2 == ']' {
      return Read(Range(c, c), pattern);
    }
    pattern := pattern + 2;
    if Quotes(c2, f) {
      c2 := At(p, pattern);
      pattern := pattern + 1;
      if c2 == EOS {
        return Failed(RANGE_ERROR);
      }
    }
    r := Read(Range(c, c2), pattern);
  }

  method RangeMatch(p: cstring, start: nat, testChar: char, f: Flags) returns (r: RangeResult, newp: nat)
    requires start <= |p|
    ensures match ParseBracket(p, start, f)
            case Unterminated => r == RANGE_ERROR
            case SlashInside => r == RANGE_NOMATCH
            case Closed(ranges, next) =>
              && newp == next
              && r == if InRanges(testChar, ranges, f) != Negates(p, start) then RANGE_MATCH else RANGE_NOMATCH
  {
    var negate := Negates(p, start);
    var pattern := if negate then start + 1 else start;
    var test := Fold(testChar, f);
    var ok := false;
    newp := 0;
    ghost var done: seq<Range>, whole := [], ParseBracket(p, start, f);
    var closed := false;
    while !closed
      invariant pattern <= |p|
      invariant ok == InRanges(testChar, done, f)
      invariant closed ==> whole == Closed(done, pattern)
      invariant !closed ==> whole == Prepend(done, ParseRanges(p, pattern, f))
      decreases |p| - pattern, !closed
    {
      var read := ReadRange(p, pattern, f);
      if read.Failed? {
        return read.result, newp;
      }
      var Read(range, next) := read;
      pattern := next;
      if Fold(range.lo, f) <= test && test <= Fold(range.hi, f) {
        ok := true;
      }
      InRangesSnoc(testChar, done, range, f);
      PrependSnoc(done, range, ParseRanges(p, pattern, f));
      done := done + [range];
      if At(p, pattern) == ']' {
        closed := true;
        pattern := pattern + 1;
      }
    }
    newp := pattern;
    r := if ok == negate then RANGE_NOMATCH else RANGE_MATCH;
  }

  lemma InRangesSnoc(t: char, done: seq<Range>, range: Range, f: Flags)
    ensures InRanges(t, done + [range], f) <==> InRanges(t, done, f) || InRange(t, range, f)
  {
    var all := done + [range];
    assert all[|done|] == range;
    assert forall i :: 0 <= i < |done| ==> all[i] == done[i];
  }

  lemma PrependSnoc(done: seq<Range>, range: Range, b: BracketParse)
    ensures Prepend(done, match b case Closed(ranges, next) => Closed([range] + ranges, next) case other => other)
         == Prepend(done + [range], b)
  {
    if b.Closed? {
      assert done + ([range] + b.ranges) == (done + [range]) + b.ranges;
    }
  }

  // ---------- fnmatch ----------

  lemma StepStar(rest: seq<Token>, s: cstring, j: nat, f: Flags, period: bool)
    requires j <= |s|
    ensures M([Star] + rest, s, j, f, period) <==>
            !Leading(s, j, f, period) && exists k: nat :: StarTakes(rest, s, j, k, f, period)
  {
    assert ([Star] + rest)[1..] == rest;
    var inner := period && KeepsPeriod(rest, f);
    if M([Star] + rest, s, j, f, period) {
      var k: nat :| MayTake(s, j, k, f) && M(rest, s, k, f, inner);
      assert StarTakes(rest, s, j, k, f, period);
    }
    if !Leading(s, j, f, period) && exists k: nat :: StarTakes(rest, s, j, k, f, period) {
      var k: nat :| StarTakes(rest, s, j, k, f, period);
      assert MayTake(s, j, k, f) && M(rest, s, k, f, inner);
    }
  }

  lemma CollapseStars(rest: seq<Token>, s: cstring, j: nat, f: Flags, period: bool)
    requires j <= |s|
    ensures M([Star] + ([Star] + rest), s, j, f, period) <==> M([Star] + rest, s, j, f, period)
  {
    var one, two := [Star] + rest, [Star] + ([Star] + rest);
    StepStar(one, s, j, f, period);
    StepStar(rest, s, j, f, period);
    StepStar(rest, s, j, f, period && KeepsPeriod(rest, f));
    var inner := period && KeepsPeriod(rest, f);
    assert one[1..] == rest && two[1..] == one;
    assert KeepsPeriod(one, f) == KeepsPeriod(rest, f);
    if M(two, s, j, f, period) {
      var k: nat :| StarTakes(one, s, j, k, f, period);
      StepStar(rest, s, k, f, inner);
      var k2: nat :| StarTakes(rest, s, k, k2, f, inner);
      assert StarTakes(rest, s, j, k2, f, period);
    }
    if M(one, s, j, f, period) {
      var k: nat :| StarTakes(rest, s, j, k, f, period);
      assert StarTakes(rest, s, j, k, f, inner);
      assert M(one, s, j, f, inner);
      assert StarTakes(one, s, j, j, f, period);
    }
  }

  /** Behind the last star of a group stands a token that needs a character. */
  lemma NeedsCharacter(rest: seq<Token>, s: cstring, f: Flags, period: bool)
    requires rest != [] && rest[0] != Star
    ensures !M(rest, s, |s|, f, period)
  {
  }

  method StrChr(s: cstring, j: nat, c: char) returns (k: nat)
    requires j <= |s| && c != EOS
    ensures j <= k <= |s| && (forall q :: j <= q < k ==> s[q] != c) && (k < |s| ==> s[k] == c)
  {
    k := j;
    while k < |s| && s[k] != c
      invariant j <= k <= |s| && forall q :: j <= q < k ==> s[q] != c
    {
      k := k + 1;
    }
  }

  predicate FirstSlash(s: cstring, j: nat, first: nat) {
    j <= first <= |s| && (forall q :: j <= q < first ==> s[q] != '/') && (first < |s| ==> s[first] == '/')
  }

  lemma StepOne(t: Token, rest: seq<Token>, s: cstring, j: nat, f: Flags, period: bool)
    requires t != Star && j <= |s|
    ensures M([t] + rest, s, j, f, period) <==>
            && j < |s| && MatchesOne(t, s[j], f) && (t.Lit? || !Leading(s, j, f, period))
            && M(rest, s, j + 1, f, period)
  {
    assert ([t] + rest)[1..] == rest;
  }

  /** A star at the end of the pattern. */
  lemma StarAtEnd(s: cstring, j: nat, first: nat, f: Flags, period: bool)
    requires FirstSlash(s, j, first)
    requires !Leading(s, j, f, period)
    ensures M([Star], s, j, f, period) <==> (f.pathname ==> f.leadingDir || first == |s|)
  {
    StepStar([], s, j, f, period);
    assert [Star] + [] == [Star];
    assert StarTakes([], s, j, |s|, f, period) <==> (f.pathname ==> first == |s|);
    if f.leadingDir {
      assert StarTakes([], s, j, first, f, period);
    }
  }

  /** A star before a slash that must match a slash takes everything up to the first one. */
  lemma StarBeforeSlash(rest: seq<Token>, s: cstring, j: nat, first: nat, f: Flags, period: bool)
    requires FirstSlash(s, j, first)
    requires !Leading(s, j, f, period) && f.pathname && rest != [] && rest[0] == Lit('/', true)
    ensures M([Star] + rest, s, j, f, period) <==> first < |s| && M(rest, s, first, f, period)
  {
    StepStar(rest, s, j, f, period);
    forall k: nat | StarTakes(rest, s, j, k, f, period)
      ensures k == first < |s|
    {
      assert s[k] == '/';
    }
    if first < |s| && M(rest, s, first, f, period) {
      assert StarTakes(rest, s, j, first, f, period);
    }
  }

  predicate StarTested(rest: seq<Token>, c: char, f: Flags) {
    && (c == EOS <==> rest == [])
    && (c == '/' && f.pathname ==> rest != [] && rest[0] == Lit('/', true))
    && (rest != [] ==> rest[0] != Star)
    && (KeepsPeriod(rest, f) ==> c == '/' && f.pathname)
  }

  lemma TokensTested(p: cstring, i: nat, f: Flags)
    requires i <= |p| && At(p, i) != '*'
    ensures StarTested(Tokens(p, i, f), At(p, i), f)
  {
  }

  /** The general case: try the rest at every position the star may reach. */
  method TryAll(p: cstring, pattern: nat, s: cstring, j: nat, f: Flags, ghost period: bool) returns (r: int)
    requires pattern <= |p| && j <= |s| && At(p, pattern) != '*' && At(p, pattern) != EOS
    requires !(At(p, pattern) == '/' && f.pathname) && !Leading(s, j, f, period)
    ensures r == 0 || r == FNM_NOMATCH
    ensures r == 0 <==> M([Star] + Tokens(p, pattern, f), s, j, f, period)
    decreases |p| - pattern, 1
  {
    ghost var rest := Tokens(p, pattern, f);
    TokensTested(p, pattern, f);
    StepStar(rest, s, j, f, period);
    var str := j;
    while str < |s|
      invariant MayTake(s, j, str, f)
      invariant forall k :: j <= k < str ==> !StarTakes(rest, s, j, k, f, period)
    {
      var test := s[str];
      var sub := Fnmatch(p, pattern, s, str, f, false);
      if sub == 0 {
        assert StarTakes(rest, s, j, str, f, period);
        return 0;
      }
      assert !StarTakes(rest, s, j, str, f, period);
      if test == '/' && f.pathname {
        assert forall k :: str < k ==> !MayTake(s, j, k, f);
        return FNM_NOMATCH;
      }
      str := str + 1;
    }
    NeedsCharacter(rest, s, f, false);
    r := FNM_NOMATCH;
  }

  /** The case of a star whose successor is at `pattern`: either the result is known, or the match goes on
      behind the star at str'. */
  method StarCase(p: cstring, pattern: nat, s: cstring, str: nat, f: Flags, period: bool)
    returns (known: bool, r: int, pattern': nat, str': nat)
    requires pattern <= |p| && str <= |s|
    ensures pattern <= pattern' <= |p| && str' <= |s|
    ensures known ==> (r == 0 || r == FNM_NOMATCH) && (r == 0 <==> M([Star] + Tokens(p, pattern, f), s, str, f, period))
    ensures !known ==>
      (M([Star] + Tokens(p, pattern, f), s, str, f, period) <==> M(Tokens(p, pattern', f), s, str', f, period))
    decreases |p| - pattern, 2
  {
    pattern', str', known, r := pattern, str, true, FNM_NOMATCH;
    var c := At(p, pattern);
    while c == '*'
      invariant pattern <= pattern' <= |p| && c == At(p, pattern')
      invariant M([Star] + Tokens(p, pattern, f), s, str, f, period) <==>
                M([Star] + Tokens(p, pattern', f), s, str, f, period)
      decreases |p| - pattern'
    {
      CollapseStars(Tokens(p, pattern' + 1, f), s, str, f, period);
      pattern' := pattern' + 1;
      c := At(p, pattern');
    }
    StepStar(Tokens(p, pattern', f), s, str, f, period);
    if Leading(s, str, f, period) {
      return;
    }
    TokensTested(p, pattern', f);
    var slash := StrChr(s, str, '/');
    if c == EOS {
      StarAtEnd(s, str, slash, f, period);
      assert [Star] + [] == [Star];
      if f.pathname {
        r := if f.leadingDir || slash == |s| then 0 else FNM_NOMATCH;
      } else {
        r := 0;
      }
    } else if c == '/' && f.pathname {
      StarBeforeSlash(Tokens(p, pattern', f), s, str, slash, f, period);
      if slash < |s| {
        known, str' := false, slash;
      }
    } else {
      r := TryAll(p, pattern', s, str, f, period);
    }
  }

  /** fnmatch.  FNM_PERIOD is only passed where the string starts at its first character. */
  method Fnmatch(p: cstring, i: nat, s: cstring, j: nat, f: Flags, period: bool) returns (r: int)
    requires i <= |p| && j <= |s| && (period ==> j == 0)
    ensures r == 0 || r == 1
    ensures r == 0 <==> M(Tokens(p, i, f), s, j, f, period)
    decreases |p| - i, 0
  {
    var pattern: nat, str: nat := i, j;
    r := FNM_NOMATCH;
    while true
      invariant i <= pattern <= |p| && str <= |s|
      invariant M(Tokens(p, i, f), s, j, f, period) <==> M(Tokens(p, pattern, f), s, str, f, period)
      decreases |p| - pattern
    {
      var c := At(p, pattern);
      if c == EOS {
        if f.leadingDir && At(s, str) == '/' {
          return 0;
        }
        return if At(s, str) == EOS then 0 else FNM_NOMATCH;
      } else if c == '*' {
        var known, result;
        known, result, pattern, str := StarCase(p, pattern + 1, s, str, f, period);
        if known {
          return result;
        }
      } else {
        var matched;
        matched, pattern := OneCase(p, pattern, s, str, f, period);
        if !matched {
          return FNM_NOMATCH;
        }
        str := str + 1;
      }
    }
  }

  /** The cases of one character: '?', a bracket, a quoted or an ordinary character. */
  method OneCase(p: cstring, i: nat, s: cstring, str: nat, f: Flags, period: bool) returns (matched: bool, pattern: nat)
    requires i < |p| && str <= |s| && At(p, i) != '*'
    ensures i < pattern <= |p| && (matched ==> str < |s|)
    ensures M(Tokens(p, i, f), s, str, f, period) <==> matched && M(Tokens(p, pattern, f), s, str + 1, f, period)
  {
    ghost var (t, next) := FirstToken(p, i, f);
    StepOne(t, Tokens(p, next, f), s, str, f, period);
    var c, ch := At(p, i), At(s, str);
    pattern := i + 1;
    if c == '?' || c == '[' {
      if ch == EOS || (ch == '/' && f.pathname) || Leading(s, str, f, period) {
        NoMatchHere(t, s, str, f, period);
        return false, pattern;
      }
      if c == '?' {
        return true, pattern;
      }
      var r, newp := RangeMatch(p, pattern, ch, f);
      if r == RANGE_MATCH {
        return true, newp;
      } else if r == RANGE_NOMATCH {
        return false, pattern;
      }
    } else if Quotes(c, f) {
      c := At(p, pattern);
      pattern := pattern + 1;
      if c == EOS {
        c := '\\';
        pattern := pattern - 1;
      }
    }
    FoldEos(c, ch, f);
    matched := c == ch || (f.casefold && ToLower(c) == ToLower(ch));
  }

  /** No token written with '?' or '[' matches at the end, at a protected slash, or at a protected period. */
  lemma NoMatchHere(t: Token, s: cstring, j: nat, f: Flags, period: bool)
    requires j <= |s| && (t == Any || t.Bracket? || t == Never || t == Lit('[', true))
    requires j == |s| || (s[j] == '/' && f.pathname) || Leading(s, j, f, period)
    ensures !(j < |s| && MatchesOne(t, s[j], f) && (t.Lit? || !Leading(s, j, f, period)))
  {
  }

  lemma FoldEos(c: char, t: char, f: Flags)
    requires c != EOS
    ensures Same(c, t, f) ==> t != EOS
  {
  }

  // ---------- FNM_PERIOD kept behind a star ----------

  /** What FNM_PERIOD promises: no '?', bracket or star anywhere in the pattern takes a protected period.
      As M, but the flag stays up behind a star. */
  ghost predicate Strict(ts: seq<Token>, s: cstring, j: nat, f: Flags, period: bool)
    requires j <= |s|
    decreases |ts|
  {
    if ts == [] then j == |s| || (f.leadingDir && s[j] == '/')
    else if ts[0] == Star then
      && !Leading(s, j, f, period)
      && exists k: nat | MayTake(s, j, k, f) :: Strict(ts[1..], s, k, f, period)
    else
      && j < |s| && MatchesOne(ts[0], s[j], f)
      && (ts[0].Lit? || !Leading(s, j, f, period))
      && Strict(ts[1..], s, j + 1, f, period)
  }

  ghost predicate StrictTakes(rest: seq<Token>, s: cstring, j: nat, k: nat, f: Flags, period: bool) {
    MayTake(s, j, k, f) && Strict(rest, s, k, f, period)
  }

  lemma StrictStar(rest: seq<Token>, s: cstring, j: nat, f: Flags, period: bool)
    requires j <= |s|
    ensures Strict([Star] + rest, s, j, f, period) <==>
            !Leading(s, j, f, period) && exists k: nat :: StrictTakes(rest, s, j, k, f, period)
  {
    assert ([Star] + rest)[1..] == rest;
    if Strict([Star] + rest, s, j, f, period) {
      var k: nat :| MayTake(s, j, k, f) && Strict(rest, s, k, f, period);
      assert StrictTakes(rest, s, j, k, f, period);
    }
    if !Leading(s, j, f, period) && exists k: nat :: StrictTakes(rest, s, j, k, f, period) {
      var k: nat :| StrictTakes(rest, s, j, k, f, period);
      assert MayTake(s, j, k, f) && Strict(rest, s, k, f, period);
    }
  }

  lemma StrictOne(t: Token, rest: seq<Token>, s: cstring, j: nat, f: Flags, period: bool)
    requires t != Star && j <= |s|
    ensures Strict([t] + rest, s, j, f, period) <==>
            && j < |s| && MatchesOne(t, s[j], f) && (t.Lit? || !Leading(s, j, f, period))
            && Strict(rest, s, j + 1, f, period)
  {
    assert ([t] + rest)[1..] == rest;
  }

  predicate IsSlash(t: Token) {
    t.Lit? && t.c == '/'
  }

  /** A token that FNM_PERIOD forbids to take a protected period, and that could take one. */
  predicate TakesDot(t: Token, f: Flags) {
    t == Star || (!t.Lit? && MatchesOne(t, '.', f))
  }

  /** Somewhere a slash is followed by such a token. */
  predicate Slips(ts: seq<Token>, f: Flags) {
    ts != [] && ((IsSlash(ts[0]) && |ts| > 1 && TakesDot(ts[1], f)) || Slips(ts[1..], f))
  }

  /** The same behind a star at which the matcher recurses. */
  predicate Forgets(ts: seq<Token>, f: Flags) {
    ts != [] && if ts[0] == Star && !KeepsPeriod(ts[1..], f) then Slips(ts[1..], f) else Forgets(ts[1..], f)
  }

  /** The pattern can match something: every token has a character to match, other than a period where the
      flag is still up and the token stands first, or behind a slash. */
  ghost predicate Can(ts: seq<Token>, f: Flags, period: bool, first: bool) {
    if ts == [] then true
    else if ts[0] == Star then Can(ts[1..], f, period && KeepsPeriod(ts[1..], f), false)
    else CanTake(ts[0], f, period && first) && Can(ts[1..], f, period, f.pathname && IsSlash(ts[0]))
  }

  ghost predicate CanTake(t: Token, f: Flags, guarded: bool) {
    exists c: char :: Suits(t, c, f, guarded)
  }

  predicate Suits(t: Token, c: char, f: Flags, guarded: bool) {
    c != EOS && MatchesOne(t, c, f) && (guarded && !t.Lit? ==> c != '.')
  }

  /** With FNM_PATHNAME a slash is matched by slashes only. */
  lemma OnlySlash(t: Token, c: char, f: Flags)
    requires f.pathname && t != Star && MatchesOne(t, c, f)
    ensures c == '/' <==> IsSlash(t)
  {
  }

  /** Nothing in front of j lets ts go wrong there. */
  predicate Harmless(ts: seq<Token>, s: cstring, j: nat, f: Flags)
  {
    Leading(s, j, f, true) ==> ts == [] || !TakesDot(ts[0], f)
  }

  /** Once the flag is down, the two readings still agree where no slash is followed by a token that takes
      a period. */
  lemma {:induction false} LoweredAgrees(ts: seq<Token>, s: cstring, j: nat, f: Flags)
    requires j <= |s| && (f.pathname ==> !Slips(ts, f)) && Harmless(ts, s, j, f)
    ensures M(ts, s, j, f, false) <==> Strict(ts, s, j, f, true)
    decreases |ts|, 0
  {
    if ts == [] {
      return;
    }
    var t, rest := ts[0], ts[1..];
    assert ts == [t] + rest;
    if t == Star {
      StepStar(rest, s, j, f, false);
      StrictStar(rest, s, j, f, true);
      StarAgrees(rest, s, j, f, false);
    } else {
      StepOne(t, rest, s, j, f, false);
      StrictOne(t, rest, s, j, f, true);
      if j < |s| && MatchesOne(t, s[j], f) {
        if f.pathname {
          OnlySlash(t, s[j], f);
        }
        LoweredAgrees(rest, s, j + 1, f);
      }
    }
  }

  /** Behind a star that lowers the flag. */
  lemma StarAgrees(rest: seq<Token>, s: cstring, j: nat, f: Flags, period: bool)
    requires j <= |s| && (f.pathname ==> !Slips(rest, f)) && !Leading(s, j, f, true)
    requires !(period && KeepsPeriod(rest, f))
    ensures forall k: nat :: StarTakes(rest, s, j, k, f, period) <==> StrictTakes(rest, s, j, k, f, true)
    decreases |rest|, 1
  {
    forall k: nat | MayTake(s, j, k, f)
      ensures M(rest, s, k, f, false) <==> Strict(rest, s, k, f, true)
    {
      assert k > j ==> f.pathname ==> s[k - 1] != '/';
      LoweredAgrees(rest, s, k, f);
    }
  }

  /** If the pattern does not forget the flag, the matcher does what FNM_PERIOD promises. */
  lemma {:induction false} KeptAgrees(ts: seq<Token>, s: cstring, j: nat, f: Flags)
    requires j <= |s| && (f.pathname ==> !Forgets(ts, f))
    ensures M(ts, s, j, f, true) <==> Strict(ts, s, j, f, true)
    decreases |ts|
  {
    if ts == [] {
      return;
    }
    var t, rest := ts[0], ts[1..];
    assert ts == [t] + rest;
    if t == Star {
      StepStar(rest, s, j, f, true);
      StrictStar(rest, s, j, f, true);
      if Leading(s, j, f, true) {
      } else if KeepsPeriod(rest, f) {
        KeepsPathname(rest, f);
        forall k: nat | MayTake(s, j, k, f)
          ensures M(rest, s, k, f, true) <==> Strict(rest, s, k, f, true)
        {
          KeptAgrees(rest, s, k, f);
        }
        assert forall k: nat :: StarTakes(rest, s, j, k, f, true) <==> StrictTakes(rest, s, j, k, f, true);
      } else {
        StarAgrees(rest, s, j, f, true);
      }
    } else {
      StepOne(t, rest, s, j, f, true);
      StrictOne(t, rest, s, j, f, true);
      if j < |s| {
        KeptAgrees(rest, s, j + 1, f);
      }
    }
  }

  lemma {:induction false} KeepsPathname(rest: seq<Token>, f: Flags)
    requires KeepsPeriod(rest, f)
    ensures f.pathname
  {
    if rest[0] == Star {
      KeepsPathname(rest[1..], f);
    }
  }

  /** Whatever FNM_PERIOD allows, the matcher accepts. */
  lemma {:induction false} NeverTooStrict(ts: seq<Token>, s: cstring, j: nat, f: Flags, period: bool)
    requires j <= |s| && Strict(ts, s, j, f, true)
    ensures M(ts, s, j, f, period)
    decreases |ts|
  {
    if ts != [] {
      var t, rest := ts[0], ts[1..];
      assert ts == [t] + rest;
      if t == Star {
        StepStar(rest, s, j, f, period);
        StrictStar(rest, s, j, f, true);
        var k: nat :| StrictTakes(rest, s, j, k, f, true);
        NeverTooStrict(rest, s, k, f, period && KeepsPeriod(rest, f));
        assert StarTakes(rest, s, j, k, f, period);
      } else {
        StrictOne(t, rest, s, j, f, true);
        StepOne(t, rest, s, j, f, period);
        NeverTooStrict(rest, s, j + 1, f, period);
      }
    }
  }

  /** A pattern that matches anything can. */
  lemma {:induction false} MatchingCan(ts: seq<Token>, s: cstring, j: nat, f: Flags, period: bool, first: bool)
    requires j <= |s| && M(ts, s, j, f, period)
    requires first ==> j == 0 || (f.pathname && s[j - 1] == '/')
    ensures Can(ts, f, period, first)
    decreases |ts|
  {
    if ts != [] {
      var t, rest := ts[0], ts[1..];
      assert ts == [t] + rest;
      if t == Star {
        StepStar(rest, s, j, f, period);
        var k: nat :| StarTakes(rest, s, j, k, f, period);
        MatchingCan(rest, s, k, f, period && KeepsPeriod(rest, f), false);
      } else {
        StepOne(t, rest, s, j, f, period);
        assert s[j] in s;
        assert Suits(t, s[j], f, period && first);
        if f.pathname {
          OnlySlash(t, s[j], f);
        }
        MatchingCan(rest, s, j + 1, f, period, f.pathname && IsSlash(t));
      }
    }
  }

  // The n-th slash of a pattern is followed by a token that takes a period, the n-th slash of a text by one.

  predicate SlipsAt(ts: seq<Token>, n: nat, f: Flags) {
    ts != [] &&
    if !IsSlash(ts[0]) then SlipsAt(ts[1..], n, f)
    else if n == 0 then |ts| > 1 && TakesDot(ts[1], f)
    else SlipsAt(ts[1..], n - 1, f)
  }

  predicate DotAt(w: string, n: nat) {
    w != [] &&
    if w[0] != '/' then DotAt(w[1..], n)
    else if n == 0 then |w| > 1 && w[1] == '.'
    else DotAt(w[1..], n - 1)
  }

  lemma {:induction false} DotBehindPlain(s: string, j: nat, k: nat, n: nat)
    requires j <= k <= |s| && (forall q :: j <= q < k ==> s[q] != '/') && DotAt(s[j..], n)
    ensures DotAt(s[k..], n)
    decreases k - j
  {
    if j < k {
      assert s[j..][1..] == s[j + 1..];
      DotBehindPlain(s, j + 1, k, n);
    }
  }

  /** With FNM_PATHNAME the n-th slash of the pattern matches the n-th slash of the text, so FNM_PERIOD
      forbids such a text. */
  lemma {:induction false} StrictRefuses(ts: seq<Token>, s: cstring, j: nat, f: Flags, n: nat)
    requires j <= |s| && f.pathname && SlipsAt(ts, n, f) && DotAt(s[j..], n)
    ensures !Strict(ts, s, j, f, true)
    decreases |ts|
  {
    if Strict(ts, s, j, f, true) {
      var t, rest := ts[0], ts[1..];
      assert ts == [t] + rest;
      if t == Star {
        StrictStar(rest, s, j, f, true);
        var k: nat :| StrictTakes(rest, s, j, k, f, true);
        DotBehindPlain(s, j, k, n);
        StrictRefuses(rest, s, k, f, n);
      } else {
        StrictOne(t, rest, s, j, f, true);
        OnlySlash(t, s[j], f);
        assert s[j..][1..] == s[j + 1..];
        if IsSlash(t) && n == 0 {
          assert Leading(s, j + 1, f, true);
        } else {
          StrictRefuses(rest, s, j + 1, f, if IsSlash(t) then n - 1 else n);
        }
      }
      assert false;
    }
  }

  /** ts matches every text that continues with w. */
  ghost predicate Fills(ts: seq<Token>, w: cstring, f: Flags, period: bool, first: bool) {
    forall s: cstring, j: nat :: j <= |s| && s[j..] == w && (first || (j > 0 && s[j - 1] != '/')) ==> M(ts, s, j, f, period)
  }

  lemma FillOne(t: Token, c: char, rest: seq<Token>, w: cstring, f: Flags, period: bool, first: bool)
    requires t != Star && f.pathname && Suits(t, c, f, period && first) && Fills(rest, w, f, period, IsSlash(t))
    ensures EOS !in [c] + w && Fills([t] + rest, [c] + w, f, period, first)
  {
    OnlySlash(t, c, f);
    forall s: cstring, j: nat | j <= |s| && s[j..] == [c] + w && (first || (j > 0 && s[j - 1] != '/'))
      ensures M([t] + rest, s, j, f, period)
    {
      assert s[j] == c && s[j + 1..] == s[j..][1..] == w;
      StepOne(t, rest, s, j, f, period);
    }
  }

  lemma FillStar(c: char, rest: seq<Token>, w: cstring, f: Flags, period: bool, first: bool)
    requires c != EOS && c != '/' && (period ==> c != '.') && Fills(rest, w, f, period && KeepsPeriod(rest, f), false)
    ensures EOS !in [c] + w && Fills([Star] + rest, [c] + w, f, period, first)
  {
    forall s: cstring, j: nat | j <= |s| && s[j..] == [c] + w && (first || (j > 0 && s[j - 1] != '/'))
      ensures M([Star] + rest, s, j, f, period)
    {
      assert s[j] == c && s[j + 1..] == s[j..][1..] == w;
      StepStar(rest, s, j, f, period);
      assert StarTakes(rest, s, j, j + 1, f, period);
    }
  }

  /** A pattern that can match has a text. */
  lemma {:induction false} Filling(ts: seq<Token>, f: Flags, period: bool, first: bool) returns (w: cstring)
    requires f.pathname && Can(ts, f, period, first)
    ensures Fills(ts, w, f, period, first)
    decreases |ts|
  {
    if ts == [] {
      return "";
    }
    var t, rest := ts[0], ts[1..];
    assert ts == [t] + rest;
    if t == Star {
      w := Filling(rest, f, period && KeepsPeriod(rest, f), false);
      FillStar('a', rest, w, f, period, first);
      w := ['a'] + w;
    } else {
      var c :| Suits(t, c, f, period && first);
      w := Filling(rest, f, period, IsSlash(t));
      FillOne(t, c, rest, w, f, period, first);
      w := [c] + w;
    }
  }

  /** A text for which the flag, once down, is missed. */
  lemma {:induction false} MissedLowered(ts: seq<Token>, f: Flags, first: bool) returns (w: cstring, n: nat)
    requires f.pathname && Can(ts, f, false, first) && Slips(ts, f)
    ensures Fills(ts, w, f, false, first) && SlipsAt(ts, n, f) && DotAt(w, n)
    decreases |ts|
  {
    var t, rest := ts[0], ts[1..];
    assert ts == [t] + rest;
    if IsSlash(t) && |ts| > 1 && TakesDot(ts[1], f) {
      var u, behind := rest[0], rest[1..];
      assert rest == [u] + behind;
      w := Filling(behind, f, false, false);
      if u == Star {
        FillStar('.', behind, w, f, false, true);
      } else {
        FillOne(u, '.', behind, w, f, false, true);
      }
      FillOne(t, '/', rest, ['.'] + w, f, false, first);
      w, n := ['/'] + (['.'] + w), 0;
    } else if t == Star {
      w, n := MissedLowered(rest, f, false);
      FillStar('a', rest, w, f, false, first);
      w := ['a'] + w;
    } else {
      var c :| Suits(t, c, f, false);
      w, n := MissedLowered(rest, f, IsSlash(t));
      w, n := MissedBehind(t, c, rest, w, f, false, first, n);
    }
  }

  lemma MissedBehind(t: Token, c: char, rest: seq<Token>, w: cstring, f: Flags, period: bool, first: bool, n: nat)
    returns (w': cstring, n': nat)
    requires t != Star && f.pathname && Suits(t, c, f, period && first) && Fills(rest, w, f, period, IsSlash(t))
    requires SlipsAt(rest, n, f) && DotAt(w, n)
    ensures Fills([t] + rest, w', f, period, first) && SlipsAt([t] + rest, n', f) && DotAt(w', n')
  {
    OnlySlash(t, c, f);
    FillOne(t, c, rest, w, f, period, first);
    w', n' := [c] + w, if IsSlash(t) then n + 1 else n;
    assert w'[1..] == w && ([t] + rest)[1..] == rest;
    hide Fills;
  }

  /** A text for which the flag is missed, for a pattern that forgets it and can match. */
  lemma {:induction false} Missed(ts: seq<Token>, f: Flags, first: bool) returns (w: cstring, n: nat)
    requires f.pathname && Can(ts, f, true, first) && Forgets(ts, f)
    ensures Fills(ts, w, f, true, first) && SlipsAt(ts, n, f) && DotAt(w, n)
    decreases |ts|
  {
    var t, rest := ts[0], ts[1..];
    assert ts == [t] + rest;
    if t == Star {
      if KeepsPeriod(rest, f) {
        w, n := Missed(rest, f, false);
      } else {
        w, n := MissedLowered(rest, f, false);
      }
      FillStar('a', rest, w, f, true, first);
      w := ['a'] + w;
    } else {
      var c :| Suits(t, c, f, first);
      w, n := Missed(rest, f, IsSlash(t));
      w, n := MissedBehind(t, c, rest, w, f, true, first, n);
    }
  }

  /** The matcher keeps the promise of FNM_PERIOD for every string, unless FNM_PATHNAME is set too and the
      pattern, which can match something, has a star, not right before a slash, behind which a slash is
      followed by a star, a '?' or a bracket with the period in it.  It errs on one side only. */
  lemma PeriodHonouredIff(ts: seq<Token>, f: Flags)
    ensures (forall s: cstring :: M(ts, s, 0, f, true) <==> Strict(ts, s, 0, f, true))
       <==> !(f.pathname && Forgets(ts, f) && Can(ts, f, true, true))
    ensures forall s: cstring :: Strict(ts, s, 0, f, true) ==> M(ts, s, 0, f, true)
  {
    forall s: cstring | Strict(ts, s, 0, f, true)
      ensures M(ts, s, 0, f, true)
    {
      NeverTooStrict(ts, s, 0, f, true);
    }
    if f.pathname && Forgets(ts, f) && Can(ts, f, true, true) {
      var w, n := Missed(ts, f, true);
      assert w[0..] == w;
      StrictRefuses(ts, w, 0, f, n);
      assert M(ts, w, 0, f, true);
    } else {
      forall s: cstring
        ensures M(ts, s, 0, f, true) <==> Strict(ts, s, 0, f, true)
      {
        if f.pathname && Forgets(ts, f) {
          if M(ts, s, 0, f, true) {
            MatchingCan(ts, s, 0, f, true, true);
          }
        } else {
          KeptAgrees(ts, s, 0, f);
        }
      }
    }
  }

  // ---------- the declarative reading ----------

  /** What one token may stand for. */
  predicate Piece(t: Token, w: string, f: Flags) {
    if t == Star then f.pathname ==> '/' !in w
    else |w| == 1 && MatchesOne(t, w[0], f)
  }

  function Concat(pieces: seq<string>): string {
    if pieces == [] then "" else pieces[0] + Concat(pieces[1..])
  }

  ghost predicate Fits(ts: seq<Token>, pieces: seq<string>, f: Flags) {
    |pieces| == |ts| && forall i :: 0 <= i < |ts| ==> Piece(ts[i], pieces[i], f)
  }

  /** Behind the last piece: nothing, or with FNM_LEADING_DIR a slash and anything. */
  predicate Tail(w: string, f: Flags) {
    w == [] || (f.leadingDir && w[0] == '/')
  }

  /** w is the pieces, one for each token, and an admissible tail. */
  ghost predicate Cuts(ts: seq<Token>, pieces: seq<string>, w: string, f: Flags) {
    Fits(ts, pieces, f) && Concat(pieces) <= w && Tail(w[|Concat(pieces)|..], f)
  }

  /** Where the i-th piece starts, the first one starting at j. */
  function StartOf(pieces: seq<string>, j: nat, i: nat): nat
    requires i <= |pieces|
  {
    j + |Concat(pieces[..i])|
  }

  /** With FNM_PERIOD, no token but a literal stands for something that starts with a protected period. */
  ghost predicate Spares(ts: seq<Token>, pieces: seq<string>, s: cstring, j: nat, f: Flags, period: bool)
    requires |pieces| == |ts|
  {
    forall i :: 0 <= i < |ts| && !ts[i].Lit? ==> !Leading(s, StartOf(pieces, j, i), f, period)
  }

  lemma FitsCons(t: Token, rest: seq<Token>, u: string, pieces: seq<string>, f: Flags)
    ensures Fits([t] + rest, [u] + pieces, f) <==> Piece(t, u, f) && Fits(rest, pieces, f)
  {
    var ts, all := [t] + rest, [u] + pieces;
    hide Piece;
    if Fits(ts, all, f) {
      assert Piece(ts[0], all[0], f);
      forall i | 0 <= i < |rest|
        ensures Piece(rest[i], pieces[i], f)
      {
        assert Piece(ts[i + 1], all[i + 1], f);
      }
    }
  }

  lemma StartOfCons(u: string, pieces: seq<string>, j: nat, i: nat)
    requires i <= |pieces|
    ensures StartOf([u] + pieces, j, i + 1) == StartOf(pieces, j + |u|, i)
  {
    assert ([u] + pieces)[..i + 1] == [u] + pieces[..i];
    assert ([u] + pieces[..i])[1..] == pieces[..i];
  }

  lemma SparesCons(t: Token, rest: seq<Token>, u: string, pieces: seq<string>, s: cstring, j: nat, f: Flags, period: bool)
    requires |pieces| == |rest|
    ensures Spares([t] + rest, [u] + pieces, s, j, f, period) <==>
            (t.Lit? || !Leading(s, j, f, period)) && Spares(rest, pieces, s, j + |u|, f, period)
  {
    var ts, all := [t] + rest, [u] + pieces;
    assert StartOf(all, j, 0) == j;
    hide Leading;
    forall i | 0 <= i < |rest|
      ensures StartOf(all, j, i + 1) == StartOf(pieces, j + |u|, i) && ts[i + 1] == rest[i]
    {
      StartOfCons(u, pieces, j, i);
    }
    hide StartOf;
    if Spares(ts, all, s, j, f, period) {
      assert t.Lit? || !Leading(s, StartOf(all, j, 0), f, period) by { assert ts[0] == t; }
      forall i | 0 <= i < |rest| && !rest[i].Lit?
        ensures !Leading(s, StartOf(pieces, j + |u|, i), f, period)
      {
        assert !Leading(s, StartOf(all, j, i + 1), f, period);
      }
    }
    if (t.Lit? || !Leading(s, j, f, period)) && Spares(rest, pieces, s, j + |u|, f, period) {
      forall i | 0 <= i < |ts| && !ts[i].Lit?
        ensures !Leading(s, StartOf(all, j, i), f, period)
      {
        if i > 0 {
          assert ts[i - 1 + 1] == rest[i - 1] && StartOf(all, j, i - 1 + 1) == StartOf(pieces, j + |u|, i - 1);
        }
      }
    }
  }

  lemma PrefixSplit(u: string, v: string, w: string)
    ensures u + v <= w <==> u <= w && v <= w[|u|..]
    ensures u + v <= w ==> w[|u + v|..] == w[|u|..][|v|..]
  {
    if u <= w && v <= w[|u|..] {
      assert w == u + w[|u|..];
    }
    if u + v <= w {
      assert w[..|u + v|] == u + v;
      assert w[|u|..][..|v|] == w[..|u + v|][|u|..] == v;
      assert u == (u + v)[..|u|] == w[..|u|];
    }
  }

  lemma CutsCons(t: Token, rest: seq<Token>, u: string, pieces: seq<string>, w: string, f: Flags)
    ensures Cuts([t] + rest, [u] + pieces, w, f) <==>
            Piece(t, u, f) && u <= w && Cuts(rest, pieces, w[|u|..], f)
  {
    FitsCons(t, rest, u, pieces, f);
    PrefixSplit(u, Concat(pieces), w);
    assert ([u] + pieces)[1..] == pieces;
    hide Fits, Piece, Tail;
  }

  ghost predicate CutsFrom(ts: seq<Token>, pieces: seq<string>, s: cstring, j: nat, f: Flags, period: bool)
    requires j <= |s|
  {
    Cuts(ts, pieces, s[j..], f) && Spares(ts, pieces, s, j, f, period)
  }

  ghost predicate HasCut(ts: seq<Token>, s: cstring, j: nat, f: Flags, period: bool)
    requires j <= |s|
  {
    exists pieces :: CutsFrom(ts, pieces, s, j, f, period)
  }

  /** The first token takes s[j..k] and the rest is cut. */
  ghost predicate TakesFirst(t: Token, rest: seq<Token>, s: cstring, j: nat, k: nat, f: Flags, period: bool) {
    j <= k <= |s| && Piece(t, s[j..k], f) && (t.Lit? || !Leading(s, j, f, period)) && HasCut(rest, s, k, f, period)
  }

  lemma CutsFromCons(t: Token, rest: seq<Token>, pieces: seq<string>, s: cstring, j: nat, k: nat, f: Flags, period: bool)
    requires j <= k <= |s|
    ensures CutsFrom([t] + rest, [s[j..k]] + pieces, s, j, f, period) <==>
            Piece(t, s[j..k], f) && (t.Lit? || !Leading(s, j, f, period)) && CutsFrom(rest, pieces, s, k, f, period)
  {
    hide Piece, Tail, Leading, Spares, Concat;
    var u, w := s[j..k], s[j..];
    assert w[..|u|] == u && w[|u|..] == s[k..];
    CutsCons(t, rest, u, pieces, w, f);
    if |pieces| == |rest| {
      SparesCons(t, rest, u, pieces, s, j, f, period);
    }
  }

  lemma HasCutCons(t: Token, rest: seq<Token>, s: cstring, j: nat, f: Flags, period: bool)
    requires j <= |s|
    ensures HasCut([t] + rest, s, j, f, period) <==> exists k: nat :: TakesFirst(t, rest, s, j, k, f, period)
  {
    if HasCut([t] + rest, s, j, f, period) {
      var all :| CutsFrom([t] + rest, all, s, j, f, period);
      var k, pieces := FirstPiece([t] + rest, all, s, j, f);
      CutsFromCons(t, rest, pieces, s, j, k, f, period);
      hide Piece, Leading, CutsFrom;
      assert TakesFirst(t, rest, s, j, k, f, period);
    }
    hide Piece, Leading, CutsFrom;
    if exists k: nat :: TakesFirst(t, rest, s, j, k, f, period) {
      var k: nat :| TakesFirst(t, rest, s, j, k, f, period);
      var pieces :| CutsFrom(rest, pieces, s, k, f, period);
      CutsFromCons(t, rest, pieces, s, j, k, f, period);
    }
  }

  lemma FirstPiece(ts: seq<Token>, all: seq<string>, s: cstring, j: nat, f: Flags) returns (k: nat, pieces: seq<string>)
    requires j <= |s| && ts != [] && Cuts(ts, all, s[j..], f)
    ensures j <= k <= |s| && all == [s[j..k]] + pieces
  {
    k, pieces := j + |all[0]|, all[1..];
    PrefixSplit(all[0], Concat(pieces), s[j..]);
    hide Fits, Tail;
    assert Concat(all) == all[0] + Concat(pieces);
    assert all[0] <= s[j..];
    assert all[0] == s[j..][..|all[0]|] == s[j..k];
    assert all == [all[0]] + pieces;
  }

  /** The recursive reading of FNM_PERIOD and the declarative one agree. */
  lemma {:induction false} StrictIsCut(ts: seq<Token>, s: cstring, j: nat, f: Flags, period: bool)
    requires j <= |s|
    ensures Strict(ts, s, j, f, period) <==> HasCut(ts, s, j, f, period)
    decreases |ts|
  {
    if ts == [] {
      assert CutsFrom([], [], s, j, f, period) <==> Tail(s[j..], f);
      return;
    }
    var t, rest := ts[0], ts[1..];
    assert ts == [t] + rest;
    HasCutCons(t, rest, s, j, f, period);
    forall k: nat | k <= |s|
      ensures HasCut(rest, s, k, f, period) <==> Strict(rest, s, k, f, period)
    {
      StrictIsCut(rest, s, k, f, period);
    }
    if t == Star {
      StrictStar(rest, s, j, f, period);
      hide Leading, HasCut, Strict;
      forall k: nat
        ensures TakesFirst(t, rest, s, j, k, f, period) <==>
                !Leading(s, j, f, period) && StrictTakes(rest, s, j, k, f, period)
      {
        StarPiece(s, j, k, f);
      }
    } else {
      StrictOne(t, rest, s, j, f, period);
      hide Leading, HasCut, Strict, MatchesOne;
      OnlyNext(t, rest, s, j, f, period);
    }
  }

  lemma OnlyNext(t: Token, rest: seq<Token>, s: cstring, j: nat, f: Flags, period: bool)
    requires t != Star
    ensures (exists k: nat :: TakesFirst(t, rest, s, j, k, f, period)) <==>
            && j < |s| && MatchesOne(t, s[j], f) && (t.Lit? || !Leading(s, j, f, period))
            && HasCut(rest, s, j + 1, f, period)
  {
    hide Leading, HasCut, MatchesOne;
    if j < |s| {
      assert s[j..j + 1] == [s[j]];
      assert TakesFirst(t, rest, s, j, j + 1, f, period) <==>
             MatchesOne(t, s[j], f) && (t.Lit? || !Leading(s, j, f, period)) && HasCut(rest, s, j + 1, f, period);
    }
  }

  lemma StarPiece(s: cstring, j: nat, k: nat, f: Flags)
    ensures MayTake(s, j, k, f) <==> j <= k <= |s| && Piece(Star, s[j..k], f)
  {
    if j <= k <= |s| {
      assert forall q :: j <= q < k ==> s[q] == s[j..k][q - j];
    }
  }

  /** Without FNM_PERIOD the matcher's recursive reading is the declarative one. */
  lemma MatchIsCut(ts: seq<Token>, s: cstring, j: nat, f: Flags)
    requires j <= |s|
    ensures M(ts, s, j, f, false) <==> HasCut(ts, s, j, f, false)
  {
    NoFlagAgrees(ts, s, j, f);
    StrictIsCut(ts, s, j, f, false);
  }

  lemma {:induction false} NoFlagAgrees(ts: seq<Token>, s: cstring, j: nat, f: Flags)
    requires j <= |s|
    ensures M(ts, s, j, f, false) <==> Strict(ts, s, j, f, false)
    decreases |ts|
  {
    if ts != [] {
      var t, rest := ts[0], ts[1..];
      assert ts == [t] + rest;
      forall k: nat | k <= |s|
        ensures M(rest, s, k, f, false) <==> Strict(rest, s, k, f, false)
      {
        NoFlagAgrees(rest, s, k, f);
      }
      if t == Star {
        StepStar(rest, s, j, f, false);
        StrictStar(rest, s, j, f, false);
        assert forall k: nat :: StarTakes(rest, s, j, k, f, false) <==> StrictTakes(rest, s, j, k, f, false);
      } else {
        StepOne(t, rest, s, j, f, false);
        StrictOne(t, rest, s, j, f, false);
      }
    }
  }

  /** With FNM_PERIOD too, for the patterns that do not forget it. */
  lemma MatchIsCutWithPeriod(ts: seq<Token>, s: cstring, f: Flags)
    requires !(f.pathname && Forgets(ts, f) && Can(ts, f, true, true))
    ensures M(ts, s, 0, f, true) <==> HasCut(ts, s, 0, f, true)
  {
    PeriodHonouredIff(ts, f);
    StrictIsCut(ts, s, 0, f, true);
  }

  // ---------- consequences ----------

  /** Anywhere in a pattern, "**" means "*". */
  lemma {:induction false} DoubleStar(before: seq<Token>, behind: seq<Token>, s: cstring, j: nat, f: Flags)
    requires j <= |s|
    ensures M(before + ([Star] + ([Star] + behind)), s, j, f, false) <==> M(before + ([Star] + behind), s, j, f, false)
    decreases |before|
  {
    var one, two := [Star] + behind, [Star] + ([Star] + behind);
    if before == [] {
      assert before + two == two && before + one == one;
      CollapseStars(behind, s, j, f, false);
      return;
    }
    var t, rest := before[0], before[1..];
    assert before + two == [t] + (rest + two) && before + one == [t] + (rest + one);
    forall k: nat | k <= |s|
      ensures M(rest + two, s, k, f, false) <==> M(rest + one, s, k, f, false)
    {
      DoubleStar(rest, behind, s, k, f);
    }
    if t == Star {
      StepStar(rest + two, s, j, f, false);
      StepStar(rest + one, s, j, f, false);
      assert forall k: nat :: StarTakes(rest + two, s, j, k, f, false) <==> StarTakes(rest + one, s, j, k, f, false);
    } else {
      StepOne(t, rest + two, s, j, f, false);
      StepOne(t, rest + one, s, j, f, false);
    }
  }

  /** Every character with a backslash before it. */
  function Quoted(w: string): string {
    if w == "" then "" else ['\\', w[0]] + Quoted(w[1..])
  }

  function Literals(w: string): seq<Token> {
    if w == "" then [] else [Lit(w[0], false)] + Literals(w[1..])
  }

  lemma {:induction false} QuotedIsCString(w: cstring)
    ensures EOS !in Quoted(w)
  {
    if w != "" {
      assert w[0] in w;
      QuotedIsCString(w[1..]);
    }
  }

  lemma {:induction false} TokensOfQuoted(p: cstring, i: nat, w: cstring, f: Flags)
    requires i <= |p| && p[i..] == Quoted(w) && !f.noescape
    ensures Tokens(p, i, f) == Literals(w)
    decreases |w|
  {
    if w != "" {
      assert w[0] in w;
      assert p[i] == p[i..][0] && p[i + 1] == p[i..][1];
      assert p[i + 2..] == p[i..][2..];
      TokensOfQuoted(p, i + 2, w[1..], f);
    }
  }

  lemma {:induction false} LiteralsMatch(w: cstring, s: cstring, j: nat, f: Flags)
    requires j <= |s| && !f.leadingDir && !f.casefold
    ensures M(Literals(w), s, j, f, false) <==> s[j..] == w
    decreases |w|
  {
    if w != "" {
      StepOne(Lit(w[0], false), Literals(w[1..]), s, j, f, false);
      if j < |s| {
        LiteralsMatch(w[1..], s, j + 1, f);
        assert s[j..] == [s[j]] + s[j + 1..];
        assert w == [w[0]] + w[1..];
      }
    }
  }

  /** With no flags set, a fully quoted string matches itself and nothing else. */
  lemma QuotedMatchesItself(w: cstring, s: cstring)
    ensures EOS !in Quoted(w)
    ensures M(Tokens(Quoted(w), 0, Flags(false, false, false, false)), s, 0, Flags(false, false, false, false), false) <==> s == w
  {
    var f := Flags(false, false, false, false);
    QuotedIsCString(w);
    var p: cstring := Quoted(w);
    assert p[0..] == p;
    TokensOfQuoted(p, 0, w, f);
    LiteralsMatch(w, s, 0, f);
    assert s[0..] == s;
  }

  /** FNM_PERIOD is forgotten behind a star: "*a/?" accepts "a/.", which the flag forbids, as it does for "a/?". */
  lemma PeriodForgottenBehindStar()
    ensures var f := Flags(false, true, false, false);
            && M(Tokens("*a/?", 0, f), "a/.", 0, f, true)
            && !Strict(Tokens("*a/?", 0, f), "a/.", 0, f, true)
            && !M(Tokens("a/?", 0, f), "a/.", 0, f, true)
  {
    var f := Flags(false, true, false, false);
    var s: cstring := "a/.";
    var q, p: cstring := "a/?", "*a/?";
    var slash, a := [Lit('/', true)] + ([Any] + []), [Lit('a', true)] + ([Lit('/', true)] + ([Any] + []));
    assert Tokens(q, 3, f) == [] && Tokens(q, 2, f) == [Any] + [];
    assert Tokens(q, 1, f) == slash && Tokens(q, 0, f) == a;
    assert Tokens(p, 4, f) == [] && Tokens(p, 3, f) == [Any] + [];
    assert Tokens(p, 2, f) == slash && Tokens(p, 1, f) == a && Tokens(p, 0, f) == [Star] + a;
    forall period: bool
      ensures M(a, s, 0, f, period) <==> !period
    {
      StepOne(Lit('a', true), slash, s, 0, f, period);
      StepOne(Lit('/', true), [Any] + [], s, 1, f, period);
      StepOne(Any, [], s, 2, f, period);
      assert M([], s, 3, f, period);
    }
    StepStar(a, s, 0, f, true);
    assert StarTakes(a, s, 0, 0, f, true);
    assert s[0..] == s && DotAt(s, 0);
    SlashThenAny(f);
    StrictRefuses([Star] + a, s, 0, f, 0);
  }

  lemma SlashThenAny(f: Flags)
    ensures SlipsAt([Star] + ([Lit('a', true)] + ([Lit('/', true)] + ([Any] + []))), 0, f)
  {
    var ts := [Star, Lit('a', true), Lit('/', true), Any];
    assert ts == [Star] + ([Lit('a', true)] + ([Lit('/', true)] + ([Any] + [])));
    assert SlipsAt(ts[1..][1..], 0, f);
  }

  // ---------- what the flags and the special characters mean ----------

  predicate Letters(upper: char, lower: char) {
    'A' <= upper <= 'Z' && lower as int == upper as int + 32
  }

  /** The same character, or the same ASCII letter in the two cases. */
  predicate Alike(c: char, d: char) {
    c == d || Letters(c, d) || Letters(d, c)
  }

  /** The characters taken for equal: with FNM_CASEFOLD those that are alike, without it the same ones. */
  predicate Equal(c: char, d: char, f: Flags) {
    if f.casefold then Alike(c, d) else c == d
  }

  lemma SameIffEqual(c: char, d: char, f: Flags)
    ensures Same(c, d, f) <==> Equal(c, d, f)
  {
  }

  /** s continues with something equal to w, and then ends, or with FNM_LEADING_DIR goes on with a slash. */
  predicate ReadsAs(w: string, s: string, f: Flags) {
    && |w| <= |s| && (forall i :: 0 <= i < |w| ==> Equal(w[i], s[i], f))
    && (|s| == |w| || (f.leadingDir && s[|w|] == '/'))
  }

  predicate LiteralTokens(ts: seq<Token>, w: string) {
    |ts| == |w| && forall i :: 0 <= i < |w| ==> ts[i].Lit? && ts[i].c == w[i]
  }

  lemma {:induction false} LiteralTokensMatch(ts: seq<Token>, w: string, s: cstring, j: nat, f: Flags, period: bool)
    requires j <= |s| && LiteralTokens(ts, w)
    ensures M(ts, s, j, f, period) <==> ReadsAs(w, s[j..], f)
    decreases |w|
  {
    if w != "" {
      var rest := ts[1..];
      assert ts == [ts[0]] + rest;
      StepOne(ts[0], rest, s, j, f, period);
      if j < |s| {
        SameIffEqual(w[0], s[j], f);
        LiteralTokensMatch(rest, w[1..], s, j + 1, f, period);
        ReadsAsFirst(w, s[j..], f);
        assert s[j..][1..] == s[j + 1..];
      }
      hide Equal, Same;
    }
  }

  lemma ReadsAsFirst(w: string, s: string, f: Flags)
    requires w != "" && s != ""
    ensures ReadsAs(w, s, f) <==> Equal(w[0], s[0], f) && ReadsAs(w[1..], s[1..], f)
  {
    hide Equal;
    if Equal(w[0], s[0], f) && ReadsAs(w[1..], s[1..], f) {
      forall i | 0 <= i < |w|
        ensures Equal(w[i], s[i], f)
      {
        if i > 0 {
          assert Equal(w[1..][i - 1], s[1..][i - 1], f);
        }
      }
    }
    if ReadsAs(w, s, f) {
      forall i | 0 <= i < |w[1..]|
        ensures Equal(w[1..][i], s[1..][i], f)
      {
        assert Equal(w[i + 1], s[i + 1], f);
      }
    }
  }

  /** Under any flags but FNM_NOESCAPE, a fully quoted string matches what reads as it. */
  lemma QuotedReadsAs(w: cstring, s: cstring, f: Flags, period: bool)
    requires !f.noescape
    ensures EOS !in Quoted(w)
    ensures M(Tokens(Quoted(w), 0, f), s, 0, f, period) <==> ReadsAs(w, s, f)
  {
    QuotedIsCString(w);
    var p: cstring := Quoted(w);
    assert p[0..] == p && s[0..] == s;
    TokensOfQuoted(p, 0, w, f);
    LiteralsAre(w);
    LiteralTokensMatch(Literals(w), w, s, 0, f, period);
  }

  lemma {:induction false} LiteralsAre(w: string)
    ensures LiteralTokens(Literals(w), w)
  {
    if w != "" {
      LiteralsAre(w[1..]);
      assert Literals(w)[1..] == Literals(w[1..]);
    }
  }

  /** No character of w is special: no '?', '*' or '[', and no backslash either unless FNM_NOESCAPE is set. */
  predicate NothingSpecial(w: string, f: Flags) {
    forall i :: 0 <= i < |w| ==> w[i] != '?' && w[i] != '*' && w[i] != '[' && (w[i] == '\\' ==> f.noescape)
  }

  /** Such a pattern matches what reads as it. */
  lemma PlainReadsAs(w: cstring, s: cstring, f: Flags, period: bool)
    requires NothingSpecial(w, f)
    ensures M(Tokens(w, 0, f), s, 0, f, period) <==> ReadsAs(w, s, f)
  {
    TokensOfPlain(w, 0, f);
    assert w[0..] == w && s[0..] == s;
    LiteralTokensMatch(Tokens(w, 0, f), w, s, 0, f, period);
  }

  lemma {:induction false} TokensOfPlain(p: cstring, i: nat, f: Flags)
    requires i <= |p| && NothingSpecial(p[i..], f)
    ensures LiteralTokens(Tokens(p, i, f), p[i..])
    decreases |p| - i
  {
    if i < |p| {
      assert p[i] == p[i..][0];
      assert p[i + 1..] == p[i..][1..];
      TokensOfPlain(p, i + 1, f);
      assert Tokens(p, i, f)[1..] == Tokens(p, i + 1, f);
    }
  }

  /** A backslash that ends the pattern stands for itself. */
  lemma TrailingBackslash(s: cstring, f: Flags, period: bool)
    ensures M(Tokens("\\", 0, f), s, 0, f, period) <==> ReadsAs("\\", s, f)
  {
    var p: cstring := "\\";
    assert Tokens(p, 1, f) == [];
    assert Tokens(p, 0, f) == [Lit('\\', true)];
    assert s[0..] == s;
    LiteralTokensMatch([Lit('\\', true)], p, s, 0, f, period);
  }

  /** One character, and then nothing, or with FNM_LEADING_DIR a slash and anything. */
  predicate OneAndTail(s: string, f: Flags) {
    |s| == 1 || (f.leadingDir && |s| > 1 && s[1] == '/')
  }

  /** A '?' matches any one character, other than a slash with FNM_PATHNAME, or a first period with FNM_PERIOD. */
  lemma QuestionMatches(s: cstring, f: Flags, period: bool)
    ensures M(Tokens("?", 0, f), s, 0, f, period) <==>
            OneAndTail(s, f) && !(s[0] == '/' && f.pathname) && !(s[0] == '.' && period)
  {
    var p: cstring := "?";
    assert Tokens(p, 1, f) == [] && Tokens(p, 0, f) == [Any] + [];
    StepOne(Any, [], s, 0, f, period);
  }

  /** Strings that are alike character by character match alike under FNM_CASEFOLD, whatever the pattern. */
  lemma {:induction false} CaseBlind(ts: seq<Token>, s: cstring, s': cstring, j: nat, f: Flags, period: bool)
    requires f.casefold && j <= |s| == |s'| && forall i :: 0 <= i < |s| ==> Alike(s[i], s'[i])
    ensures M(ts, s, j, f, period) <==> M(ts, s', j, f, period)
    decreases |ts|
  {
    AlikeText(s, s', f, period);
    hide Alike, MatchesOne, Leading, MayTake;
    if ts != [] {
      var t, rest := ts[0], ts[1..];
      assert ts == [t] + rest;
      if t == Star {
        StepStar(rest, s, j, f, period);
        StepStar(rest, s', j, f, period);
        forall k: nat
          ensures StarTakes(rest, s, j, k, f, period) <==> StarTakes(rest, s', j, k, f, period)
        {
          if MayTake(s, j, k, f) {
            CaseBlind(rest, s, s', k, f, period && KeepsPeriod(rest, f));
          }
        }
      } else {
        StepOne(t, rest, s, j, f, period);
        StepOne(t, rest, s', j, f, period);
        if j < |s| {
          AlikeOne(t, s[j], s'[j], f);
          CaseBlind(rest, s, s', j + 1, f, period);
        }
      }
    }
  }

  lemma AlikeOne(t: Token, c: char, d: char, f: Flags)
    requires f.casefold && Alike(c, d)
    ensures MatchesOne(t, c, f) <==> MatchesOne(t, d, f)
  {
    assert Fold(c, f) == Fold(d, f);
    assert c == '/' <==> d == '/';
    if t.Bracket? {
      assert forall i :: 0 <= i < |t.ranges| ==> (InRange(c, t.ranges[i], f) <==> InRange(d, t.ranges[i], f));
    }
  }

  lemma AlikeText(s: cstring, s': cstring, f: Flags, period: bool)
    requires |s| == |s'| && forall i :: 0 <= i < |s| ==> Alike(s[i], s'[i])
    ensures forall i :: 0 <= i < |s| ==> (s[i] == '/' <==> s'[i] == '/') && (s[i] == '.' <==> s'[i] == '.')
    ensures forall j: nat {:trigger Leading(s, j, f, period)} {:trigger Leading(s', j, f, period)} ::
              Leading(s, j, f, period) <==> Leading(s', j, f, period)
    ensures forall j: nat, k: nat {:trigger MayTake(s, j, k, f)} {:trigger MayTake(s', j, k, f)} ::
              MayTake(s, j, k, f) <==> MayTake(s', j, k, f)
  {
    forall i | 0 <= i < |s|
      ensures (s[i] == '/' <==> s'[i] == '/') && (s[i] == '.' <==> s'[i] == '.')
    {
      assert Alike(s[i], s'[i]);
    }
  }

  // ---------- brackets, as they are written ----------

  /** A character with or without a backslash before it. */
  datatype Written = Written(c: char, quoted: bool)

  /** One character of a bracket, or two with a dash between them. */
  datatype Item = One(lo: Written) | Span(lo: Written, hi: Written)

  function Text(w: Written): string {
    if w.quoted then ['\\', w.c] else [w.c]
  }

  function ItemText(it: Item): string {
    if it.Span? then Text(it.lo) + ['-'] + Text(it.hi) else Text(it.lo)
  }

  function ItemsText(items: seq<Item>): string {
    if items == [] then "" else ItemText(items[0]) + ItemsText(items[1..])
  }

  predicate Writable(w: Written, f: Flags) {
    w.c != EOS && (if w.quoted then !f.noescape else w.c == '\\' ==> f.noescape)
  }

  /** An item that reads as it is meant: a closing bracket or a dash is quoted unless it comes first, and so is a
      closing bracket behind a dash; FNM_PATHNAME allows no slash before a dash. */
  predicate ItemOk(it: Item, first: bool, f: Flags) {
    && Writable(it.lo, f) && !(it.lo.c == '/' && f.pathname)
    && (!first && !it.lo.quoted ==> it.lo.c != ']' && it.lo.c != '-')
    && (it.Span? ==> Writable(it.hi, f) && (!it.hi.quoted ==> it.hi.c != ']'))
  }

  predicate ItemsOk(items: seq<Item>, first: bool, f: Flags) {
    forall i :: 0 <= i < |items| ==> ItemOk(items[i], first && i == 0, f)
  }

  function RangeOf(it: Item): Range {
    Range(it.lo.c, if it.Span? then it.hi.c else it.lo.c)
  }

  function RangesOf(items: seq<Item>): seq<Range> {
    if items == [] then [] else [RangeOf(items[0])] + RangesOf(items[1..])
  }

  /** p continues at i with t. */
  predicate Continues(p: string, i: nat, t: string) {
    i + |t| <= |p| && p[i..i + |t|] == t
  }

  lemma ContinuesInTwo(p: string, i: nat, t: string, u: string)
    ensures Continues(p, i, t + u) <==> Continues(p, i, t) && Continues(p, i + |t|, u)
  {
    if i + |t| + |u| <= |p| {
      assert p[i..i + |t + u|] == p[i..i + |t|] + p[i + |t|..i + |t| + |u|];
    }
    if Continues(p, i, t + u) {
      assert p[i..i + |t|] == (t + u)[..|t|] == t;
      assert p[i + |t|..i + |t| + |u|] == (t + u)[|t|..] == u;
    }
  }

  lemma WrittenAt(p: cstring, i: nat, w: Written, f: Flags)
    requires Continues(p, i, Text(w)) && Writable(w, f)
    ensures Quotes(At(p, i), f) == w.quoted && At(p, if w.quoted then i + 1 else i) == w.c
  {
    assert p[i] == p[i..i + |Text(w)|][0];
    if w.quoted {
      assert p[i + 1] == p[i..i + |Text(w)|][1];
    }
  }

  /** One item is read as its range. */
  lemma ItemRead(p: cstring, i: nat, it: Item, first: bool, f: Flags)
    requires Continues(p, i, ItemText(it)) && ItemOk(it, first, f)
    requires it.One? ==> At(p, i + |ItemText(it)|) != '-' || At(p, i + |ItemText(it)| + 1) == ']'
    requires i + |ItemText(it)| < |p|
    ensures ParseRanges(p, i, f) == CloseOrContinue(p, RangeOf(it), i + |ItemText(it)|, f)
  {
    hide CloseOrContinue, Continues;
    if it.Span? {
      ContinuesInTwo(p, i, Text(it.lo) + ['-'], Text(it.hi));
      ContinuesInTwo(p, i, Text(it.lo), ['-']);
      WrittenAt(p, i, it.lo, f);
      WrittenAt(p, i + |Text(it.lo)| + 1, it.hi, f);
      ContinuesWith(p, i + |Text(it.lo)|, '-');
    } else {
      WrittenAt(p, i, it.lo, f);
    }
  }

  lemma ContinuesWith(p: cstring, i: nat, c: char)
    requires Continues(p, i, [c])
    ensures i < |p| && p[i] == c
  {
    assert p[i..i + 1][0] == c;
  }

  lemma FirstItem(p: cstring, i: nat, items: seq<Item>, end: string, first: bool, f: Flags)
    requires items != [] && ItemsOk(items, first, f) && Continues(p, i, ItemsText(items) + end)
    ensures ItemOk(items[0], first, f) && ItemsOk(items[1..], false, f)
    ensures Continues(p, i, ItemText(items[0])) && Continues(p, i + |ItemText(items[0])|, ItemsText(items[1..]) + end)
    ensures |ItemsText(items)| == |ItemText(items[0])| + |ItemsText(items[1..])|
    ensures RangesOf(items) == [RangeOf(items[0])] + RangesOf(items[1..])
  {
    hide ItemOk, ItemText, Continues;
    var it, rest := items[0], items[1..];
    assert ItemsText(items) + end == ItemText(it) + (ItemsText(rest) + end);
    ContinuesInTwo(p, i, ItemText(it), ItemsText(rest) + end);
    assert ItemOk(it, first && 0 == 0, f);
    forall m | 0 <= m < |rest|
      ensures ItemOk(rest[m], false && m == 0, f)
    {
      assert ItemOk(items[m + 1], first && m + 1 == 0, f);
    }
  }

  lemma NoItems()
    ensures ItemsText([]) == "" && RangesOf([]) == []
  {
  }

  /** A bracket's items and its closing bracket are read as their ranges. */
  lemma {:induction false} ItemsRead(p: cstring, i: nat, items: seq<Item>, first: bool, f: Flags)
    requires items != [] && ItemsOk(items, first, f) && Continues(p, i, ItemsText(items) + "]")
    ensures ParseRanges(p, i, f) == Closed(RangesOf(items), i + |ItemsText(items)| + 1)
    decreases |items|
  {
    hide ParseRanges, ItemOk, ItemText, Continues, ItemsOk, ItemsText, RangesOf;
    var it, rest := items[0], items[1..];
    var k := i + |ItemText(it)|;
    FirstItem(p, i, items, "]", first, f);
    NextItem(p, k, rest, f);
    ItemRead(p, i, it, first, f);
    if rest == [] {
      NoItems();
    } else {
      ItemsRead(p, k, rest, false, f);
    }
  }

  /** What stands behind an item: another one, which begins with neither dash nor closing bracket, or the end. */
  lemma NextItem(p: cstring, k: nat, rest: seq<Item>, f: Flags)
    requires ItemsOk(rest, false, f) && Continues(p, k, ItemsText(rest) + "]")
    ensures k < |p| && At(p, k) != '-' && (At(p, k) == ']' <==> rest == [])
  {
    assert p[k] == p[k..k + |ItemsText(rest) + "]"|][0];
    if rest != [] {
      assert ItemOk(rest[0], false, f);
    }
  }

  /** The lower-case form of a character. */
  predicate LowerOf(c: char, l: char) {
    Letters(c, l) || (l == c && !('A' <= c <= 'Z'))
  }

  predicate InSpan(c: char, lo: char, hi: char, f: Flags) {
    if f.casefold then exists a, b, x :: LowerOf(lo, a) && LowerOf(hi, b) && LowerOf(c, x) && a <= x <= b
    else lo <= c <= hi
  }

  predicate Member(c: char, items: seq<Item>, f: Flags) {
    exists i :: 0 <= i < |items| && (if items[i].Span? then InSpan(c, items[i].lo.c, items[i].hi.c, f) else Equal(items[i].lo.c, c, f))
  }

  lemma LowerIsToLower(c: char, l: char)
    ensures LowerOf(c, l) <==> l == ToLower(c)
  {
  }

  lemma RangeIsItem(c: char, it: Item, f: Flags)
    ensures InRange(c, RangeOf(it), f) <==>
            if it.Span? then InSpan(c, it.lo.c, it.hi.c, f) else Equal(it.lo.c, c, f)
  {
    if it.Span? {
      if f.casefold {
        LowerIsToLower(it.lo.c, ToLower(it.lo.c));
        LowerIsToLower(it.hi.c, ToLower(it.hi.c));
        LowerIsToLower(c, ToLower(c));
        hide LowerOf;
        forall l, d
          ensures LowerOf(d, l) ==> l == ToLower(d)
        {
          LowerIsToLower(d, l);
        }
        hide ToLower;
      }
    } else {
      SameIffEqual(it.lo.c, c, f);
      hide ToLower;
    }
  }

  lemma {:induction false} RangesAreItems(c: char, items: seq<Item>, f: Flags)
    ensures |RangesOf(items)| == |items|
    ensures InRanges(c, RangesOf(items), f) <==> Member(c, items, f)
  {
    RangeAt(items);
    forall i | 0 <= i < |items|
      ensures InRange(c, RangesOf(items)[i], f) <==>
              if items[i].Span? then InSpan(c, items[i].lo.c, items[i].hi.c, f) else Equal(items[i].lo.c, c, f)
    {
      RangeIsItem(c, items[i], f);
    }
    hide InRange, InSpan, Equal, RangesOf;
  }

  lemma {:induction false} RangeAt(items: seq<Item>)
    ensures |RangesOf(items)| == |items| && forall i :: 0 <= i < |items| ==> RangesOf(items)[i] == RangeOf(items[i])
  {
    if items != [] {
      RangeAt(items[1..]);
    }
  }

  /** A bracket matches one character: a member, or behind '!' or '^' any other; not a slash with FNM_PATHNAME, and
      not a first period with FNM_PERIOD.  A closing bracket that comes first is a member. */
  lemma BracketMatches(sign: string, items: seq<Item>, s: cstring, f: Flags, period: bool)
    requires sign == "" || sign == "!" || sign == "^"
    requires items != [] && ItemsOk(items, true, f)
    requires sign == "" && !items[0].lo.quoted ==> items[0].lo.c != '!' && items[0].lo.c != '^'
    ensures EOS !in BracketText(sign, items)
    ensures M(Tokens(BracketText(sign, items), 0, f), s, 0, f, period) <==>
            && OneAndTail(s, f) && !(s[0] == '/' && f.pathname) && !(s[0] == '.' && period)
            && (Member(s[0], items, f) <==> sign == "")
  {
    BracketIsCString(sign, items, f);
    var p: cstring := BracketText(sign, items);
    assert p == "[" + sign + (ItemsText(items) + "]");
    BracketRead(p, sign, items, f);
    var t := Bracket(sign != "", RangesOf(items));
    assert Tokens(p, 0, f) == [t] + [];
    StepOne(t, [], s, 0, f, period);
    if s != "" {
      RangesAreItems(s[0], items, f);
    }
    hide Tokens, InRanges, Member, RangesOf, ItemsOk, BracketText;
  }

  function BracketText(sign: string, items: seq<Item>): string {
    "[" + sign + ItemsText(items) + "]"
  }

  lemma BracketIsCString(sign: string, items: seq<Item>, f: Flags)
    requires sign == "" || sign == "!" || sign == "^"
    requires ItemsOk(items, true, f)
    ensures EOS !in BracketText(sign, items)
  {
    ItemsAreCString(items, true, f);
    hide ItemsText;
  }

  lemma {:induction false} ItemsAreCString(items: seq<Item>, first: bool, f: Flags)
    requires ItemsOk(items, first, f)
    ensures EOS !in ItemsText(items)
  {
    if items != [] {
      assert ItemOk(items[0], first, f);
      assert forall m :: 0 <= m < |items[1..]| ==> items[1..][m] == items[m + 1];
      ItemsAreCString(items[1..], false, f);
    }
  }

  lemma BracketRead(p: cstring, sign: string, items: seq<Item>, f: Flags)
    requires sign == "" || sign == "!" || sign == "^"
    requires items != [] && ItemsOk(items, true, f) && p == "[" + sign + (ItemsText(items) + "]")
    requires sign == "" && !items[0].lo.quoted ==> items[0].lo.c != '!' && items[0].lo.c != '^'
    ensures Tokens(p, 0, f) == [Bracket(sign != "", RangesOf(items))]
  {
    var i := 1 + |sign|;
    BehindSign(p, sign, ItemsText(items) + "]");
    FirstOfItems(items);
    hide ParseRanges, RangesOf, ItemsText, ItemsOk, ItemOk, Continues, BracketText;
    ItemsRead(p, i, items, true, f);
    OneBracket(p, sign, RangesOf(items), f);
  }

  lemma BehindSign(p: string, sign: string, t: string)
    requires p == "[" + sign + t && t != ""
    ensures Continues(p, 1 + |sign|, t) && 1 + |sign| + |t| == |p|
    ensures p[0] == '[' && p[1] == if sign == "" then t[0] else sign[0]
  {
    var u := "[" + sign;
    assert p == u + t;
    assert p[|u|..] == t;
  }

  lemma OneBracket(p: cstring, sign: string, ranges: seq<Range>, f: Flags)
    requires |p| > 1 && p[0] == '[' && (sign == "" || sign == "!" || sign == "^")
    requires p[1] == '!' || p[1] == '^' <==> sign != ""
    requires ParseRanges(p, 1 + |sign|, f) == Closed(ranges, |p|)
    ensures Tokens(p, 0, f) == [Bracket(sign != "", ranges)]
  {
    hide ParseRanges;
    assert FirstToken(p, 0, f) == (Bracket(sign != "", ranges), |p|);
    hide FirstToken;
    assert Tokens(p, |p|, f) == [];
  }

  lemma FirstOfItems(items: seq<Item>)
    requires items != []
    ensures ItemsText(items) != "" && ItemsText(items)[0] == if items[0].lo.quoted then '\\' else items[0].lo.c
  {
  }

  /** A bracket that is never closed is an ordinary character, and what follows it is read as if it were not there;
      but with FNM_PATHNAME a slash in it makes the pattern match nothing. */
  lemma UnclosedBracket(w: cstring, s: cstring, f: Flags, period: bool)
    requires !f.noescape
    ensures EOS !in "[" + Quoted(w)
    ensures M(Tokens("[" + Quoted(w), 0, f), s, 0, f, period) <==> !(f.pathname && '/' in w) && ReadsAs("[" + w, s, f)
  {
    QuotedIsCString(w);
    var p: cstring := "[" + Quoted(w);
    assert p[1..] == Quoted(w);
    UnclosedRead(p, 1, w, f);
    if f.pathname && '/' in w {
      NeverMatches(s, f, period);
      assert Tokens(p, |p|, f) == [];
      assert Tokens(p, 0, f) == [Never] + [];
    } else {
      TokensOfQuoted(p, 1, w, f);
      LiteralsAre(w);
      var ts := [Lit('[', true)] + Literals(w);
      assert Tokens(p, 0, f) == ts;
      assert LiteralTokens(ts, "[" + w);
      assert s[0..] == s;
      LiteralTokensMatch(ts, "[" + w, s, 0, f, period);
    }
  }

  lemma NeverMatches(s: cstring, f: Flags, period: bool)
    ensures !M([Never] + [], s, 0, f, period)
  {
    StepOne(Never, [], s, 0, f, period);
  }

  lemma {:induction false} UnclosedRead(p: cstring, i: nat, w: cstring, f: Flags)
    requires 1 <= i <= |p| && p[i..] == Quoted(w) && !f.noescape
    ensures ParseRanges(p, i, f) == if f.pathname && '/' in w then SlashInside else Unterminated
    ensures !Negates(p, i)
    decreases |w|
  {
    if w != "" {
      assert w[0] in w;
      assert p[i] == p[i..][0] && p[i + 1] == p[i..][1];
      assert p[i + 2..] == p[i..][2..];
      UnclosedRead(p, i + 2, w[1..], f);
      assert w == [w[0]] + w[1..];
      assert i + 2 < |p| ==> p[i + 2] == p[i + 2..][0] == '\\';
    }
  }

  /** With FNM_PATHNAME a slash among the items makes the pattern match nothing, closed or not. */
  lemma SlashInBracket(items: seq<Item>, rest: cstring, s: cstring, f: Flags, period: bool)
    requires f.pathname && ItemsOk(items, true, f) && EOS !in SlashText(items, rest)
    requires items != [] && !items[0].lo.quoted ==> items[0].lo.c != '!' && items[0].lo.c != '^'
    ensures !M(Tokens(SlashText(items, rest), 0, f), s, 0, f, period)
  {
    hide ParseRanges, ItemsOk, ItemsText, M;
    var p: cstring := SlashText(items, rest);
    SlashContinues(items, rest);
    SlashRead(p, 1, items, true, f);
    NeverMatches(s, f, period);
    assert Tokens(p, |p|, f) == [];
    assert Tokens(p, 0, f) == [Never] + [];
  }

  lemma SlashContinues(items: seq<Item>, rest: string)
    requires EOS !in SlashText(items, rest)
    requires items != [] && !items[0].lo.quoted ==> items[0].lo.c != '!' && items[0].lo.c != '^'
    ensures var p: cstring := SlashText(items, rest);
            p[0] == '[' && Continues(p, 1, ItemsText(items) + "/") && At(p, 1) != '!' && At(p, 1) != '^'
  {
    var p := SlashText(items, rest);
    assert p == "[" + (ItemsText(items) + "/" + rest);
    assert p[1..] == ItemsText(items) + "/" + rest;
    if items != [] {
      FirstOfItems(items);
    }
    hide ItemsText;
  }

  function SlashText(items: seq<Item>, rest: string): string {
    "[" + ItemsText(items) + "/" + rest
  }

  lemma {:induction false} SlashRead(p: cstring, i: nat, items: seq<Item>, first: bool, f: Flags)
    requires f.pathname && ItemsOk(items, first, f) && Continues(p, i, ItemsText(items) + "/")
    ensures ParseRanges(p, i, f) == SlashInside
    decreases |items|
  {
    hide ParseRanges, ItemOk, ItemText, Continues, ItemsOk, ItemsText, RangesOf;
    if items == [] {
      NoItems();
      SlashFirst(p, i, f);
    } else {
      var it, rest := items[0], items[1..];
      var k := i + |ItemText(it)|;
      FirstItem(p, i, items, "/", first, f);
      NextBeforeSlash(p, k, rest, f);
      ItemRead(p, i, it, first, f);
      SlashRead(p, k, rest, false, f);
    }
  }

  lemma SlashFirst(p: cstring, i: nat, f: Flags)
    requires f.pathname && Continues(p, i, "" + "/")
    ensures ParseRanges(p, i, f) == SlashInside
  {
    assert p[i] == p[i..i + 1][0] == '/';
  }

  lemma NextBeforeSlash(p: cstring, k: nat, rest: seq<Item>, f: Flags)
    requires ItemsOk(rest, false, f) && Continues(p, k, ItemsText(rest) + "/")
    ensures k < |p| && At(p, k) != '-' && At(p, k) != ']'
  {
    assert p[k] == p[k..k + |ItemsText(rest) + "/"|][0];
    if rest != [] {
      assert ItemOk(rest[0], false, f);
    }
  }
}
