/** What the glob matcher does, from the text of a pattern to the strings it matches: a pattern is written as a list
    of parts, read as their tokens, and matches what can be cut into one piece for each part. */
module FnmatchPatterns {
  import opened Fnmatch

  /** A part of a pattern, with sign "", "!" or "^" behind the bracket. */
  datatype Part = Question | Asterisk | Plain(w: Written) | Bracketed(sign: string, items: seq<Item>)

  function PartText(part: Part): string {
    match part
    case Question => "?"
    case Asterisk => "*"
    case Plain(w) => Text(w)
    case Bracketed(sign, items) => BracketText(sign, items)
  }

  function PartsText(parts: seq<Part>): string {
    if parts == [] then "" else PartText(parts[0]) + PartsText(parts[1..])
  }

  /** A part that reads as it is meant. */
  predicate PartOk(part: Part, f: Flags) {
    match part
    case Question => true
    case Asterisk => true
    case Plain(w) => Writable(w, f) && (!w.quoted ==> w.c != '?' && w.c != '*' && w.c != '[')
    case Bracketed(sign, items) =>
      && (sign == "" || sign == "!" || sign == "^")
      && items != [] && ItemsOk(items, true, f)
      && (sign == "" && !items[0].lo.quoted ==> items[0].lo.c != '!' && items[0].lo.c != '^')
  }

  predicate PartsOk(parts: seq<Part>, f: Flags) {
    forall i :: 0 <= i < |parts| ==> PartOk(parts[i], f)
  }

  // ---------- reading ----------

  function TokenOf(part: Part): Token {
    match part
    case Question => Any
    case Asterisk => Star
    case Plain(w) => Lit(w.c, !w.quoted)
    case Bracketed(sign, items) => Bracket(sign != "", RangesOf(items))
  }

  function TokensOf(parts: seq<Part>): seq<Token> {
    if parts == [] then [] else [TokenOf(parts[0])] + TokensOf(parts[1..])
  }

  /** Wherever it stands in a pattern, a part is read as its token. */
  lemma PartRead(p: cstring, i: nat, part: Part, f: Flags)
    requires Continues(p, i, PartText(part)) && PartOk(part, f)
    ensures i < |p| && FirstToken(p, i, f) == (TokenOf(part), i + |PartText(part)|)
  {
    hide ParseRanges, ItemsOk, ItemsText, RangesOf, Continues, Writable;
    match part
    case Question => ContinuesWith(p, i, '?');
    case Asterisk => ContinuesWith(p, i, '*');
    case Plain(w) => LiteralRead(p, i, w, f);
    case Bracketed(sign, items) => BracketReadAt(p, i, sign, items, f);
  }

  lemma LiteralRead(p: cstring, i: nat, w: Written, f: Flags)
    requires Continues(p, i, Text(w)) && PartOk(Plain(w), f)
    ensures i < |p| && FirstToken(p, i, f) == (Lit(w.c, !w.quoted), i + |Text(w)|)
  {
    hide ParseBracket;
    assert p[i] == p[i..i + |Text(w)|][0];
    if w.quoted {
      assert p[i + 1] == p[i..i + |Text(w)|][1];
    }
  }

  lemma BracketReadAt(p: cstring, i: nat, sign: string, items: seq<Item>, f: Flags)
    requires Continues(p, i, BracketText(sign, items)) && PartOk(Bracketed(sign, items), f)
    ensures i < |p| && FirstToken(p, i, f) == (Bracket(sign != "", RangesOf(items)), i + |BracketText(sign, items)|)
  {
    hide ParseRanges, RangesOf, ItemsText, ItemsOk;
    var t := ItemsText(items) + "]";
    assert BracketText(sign, items) == "[" + sign + t;
    ContinuesInTwo(p, i, "[" + sign, t);
    ContinuesInTwo(p, i, "[", sign);
    ContinuesWith(p, i, '[');
    SignRead(p, i + 1, sign, items, f);
    ItemsRead(p, i + 1 + |sign|, items, true, f);
    hide Continues, BracketText;
  }

  lemma SignRead(p: cstring, i: nat, sign: string, items: seq<Item>, f: Flags)
    requires Continues(p, i, sign) && Continues(p, i + |sign|, ItemsText(items) + "]") && PartOk(Bracketed(sign, items), f)
    ensures i < |p| && (Negates(p, i) <==> sign != "")
  {
    FirstOfItems(items);
    hide ItemsText, ItemsOk;
    var t := ItemsText(items) + "]";
    if sign == "" {
      assert p[i] == p[i..i + |t|][0];
    } else {
      assert p[i] == p[i..i + |sign|][0];
    }
  }

  lemma {:induction false} PartsReadAt(p: cstring, i: nat, parts: seq<Part>, f: Flags)
    requires Continues(p, i, PartsText(parts)) && i + |PartsText(parts)| == |p| && PartsOk(parts, f)
    ensures Tokens(p, i, f) == TokensOf(parts)
    decreases |parts|
  {
    hide FirstToken, Continues, PartOk, PartText, TokenOf;
    if parts != [] {
      var part, rest := parts[0], parts[1..];
      ContinuesInTwo(p, i, PartText(part), PartsText(rest));
      PartRead(p, i, part, f);
      PartsReadAt(p, i + |PartText(part)|, rest, f);
    }
  }

  lemma {:induction false} PartsAreCString(parts: seq<Part>, f: Flags)
    requires PartsOk(parts, f)
    ensures EOS !in PartsText(parts)
  {
    if parts != [] {
      PartsAreCString(parts[1..], f);
      assert PartOk(parts[0], f);
      if parts[0].Bracketed? {
        BracketIsCString(parts[0].sign, parts[0].items, f);
      }
      hide BracketText, ItemsOk;
    }
  }

  /** The tokens of a pattern are those of the parts it is written with. */
  lemma PartsRead(parts: seq<Part>, f: Flags)
    requires PartsOk(parts, f)
    ensures EOS !in PartsText(parts)
    ensures Tokens(PartsText(parts), 0, f) == TokensOf(parts)
  {
    hide Tokens, PartsOk, PartsText;
    PartsAreCString(parts, f);
    var p: cstring := PartsText(parts);
    assert p[0..|p|] == p;
    PartsReadAt(p, 0, parts, f);
  }

  // ---------- matching ----------

  /** What a part stands for. */
  predicate Takes(part: Part, w: string, f: Flags) {
    match part
    case Asterisk => f.pathname ==> '/' !in w
    case Question => |w| == 1 && !(w[0] == '/' && f.pathname)
    case Plain(l) => |w| == 1 && Equal(l.c, w[0], f)
    case Bracketed(sign, items) => |w| == 1 && !(w[0] == '/' && f.pathname) && (Member(w[0], items, f) <==> sign == "")
  }

  /** s is cut into the pieces, one for each part, and a tail; with FNM_PERIOD a protected period is taken only by a
      plain character. */
  ghost predicate CutInto(parts: seq<Part>, pieces: seq<string>, s: cstring, f: Flags, period: bool) {
    && |pieces| == |parts|
    && (forall i :: 0 <= i < |parts| ==> Takes(parts[i], pieces[i], f))
    && Concat(pieces) <= s && Tail(s[|Concat(pieces)|..], f)
    && forall i :: 0 <= i < |parts| && !parts[i].Plain? ==> !Leading(s, |Concat(pieces[..i])|, f, period)
  }

  lemma PieceIsTaken(part: Part, w: string, f: Flags)
    ensures Piece(TokenOf(part), w, f) <==> Takes(part, w, f)
  {
    if |w| == 1 {
      match part
      case Plain(l) => SameIffEqual(l.c, w[0], f);
      case Bracketed(sign, items) => RangesAreItems(w[0], items, f);
      case _ =>
    }
    hide Same, Equal, InRanges, Member;
  }

  lemma {:induction false} TokenAt(parts: seq<Part>)
    ensures |TokensOf(parts)| == |parts| && forall i :: 0 <= i < |parts| ==> TokensOf(parts)[i] == TokenOf(parts[i])
  {
    if parts != [] {
      TokenAt(parts[1..]);
    }
  }

  lemma CutsAgree(parts: seq<Part>, pieces: seq<string>, s: cstring, f: Flags, period: bool)
    ensures CutInto(parts, pieces, s, f, period) <==> CutsFrom(TokensOf(parts), pieces, s, 0, f, period)
  {
    hide TokensOf, Takes, Piece, Leading, Tail, Concat;
    TokenAt(parts);
    assert s[0..] == s;
    forall i | 0 <= i < |parts| == |pieces|
      ensures Piece(TokensOf(parts)[i], pieces[i], f) <==> Takes(parts[i], pieces[i], f)
      ensures StartOf(pieces, 0, i) == |Concat(pieces[..i])|
    {
      PieceIsTaken(parts[i], pieces[i], f);
    }
  }

  /** What a pattern matches: the strings that can be cut into one piece for each part and a tail.  With FNM_PERIOD
      this takes a pattern that does not forget the flag. */
  lemma PatternMeaning(parts: seq<Part>, s: cstring, f: Flags, period: bool)
    requires PartsOk(parts, f)
    requires period && f.pathname ==> !(Forgets(TokensOf(parts), f) && Can(TokensOf(parts), f, true, true))
    ensures EOS !in PartsText(parts)
    ensures M(Tokens(PartsText(parts), 0, f), s, 0, f, period) <==> exists pieces :: CutInto(parts, pieces, s, f, period)
  {
    hide M, Tokens, TokensOf, PartsOk, PartsText, CutInto, CutsFrom, Forgets, Can;
    PartsRead(parts, f);
    if period {
      MatchIsCutWithPeriod(TokensOf(parts), s, f);
    } else {
      MatchIsCut(TokensOf(parts), s, 0, f);
    }
    forall pieces
      ensures CutInto(parts, pieces, s, f, period) <==> CutsFrom(TokensOf(parts), pieces, s, 0, f, period)
    {
      CutsAgree(parts, pieces, s, f, period);
    }
  }
}
