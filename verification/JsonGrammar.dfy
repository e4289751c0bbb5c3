/** The language the JSON reader accepts, as a grammar of its own: concrete texts with white space
    between their tokens, the value each stands for, and that the reader reads exactly these. */
module JsonGrammar {
  import opened JsonText

  // ------------------------------------------------------------------------ white space

  /** The six characters: space, tab, line feed, vertical tab, form feed, carriage return. */
  predicate IsWhite(c: char) {
    c == ' ' || c == '\t' || c == '\n' || c == '\U{0B}' || c == '\U{0C}' || c == '\r'
  }

  predicate White(gap: string) {
    forall i :: 0 <= i < |gap| ==> IsWhite(gap[i])
  }

  lemma SpaceIsWhite(c: char)
    ensures IsSpace(c) <==> IsWhite(c)
  {
    assert '\n' as int == 10 && '\U{0B}' as int == 11 && '\U{0C}' as int == 12;
  }

  /** A gap is skipped, whatever its length and characters. */
  lemma {:induction false} GapSkipped(text: string, pos: nat, gap: string, i: nat)
    requires White(gap) && At(text, pos, gap) && i <= |gap|
    requires pos + |gap| < |text| ==> !IsWhite(text[pos + |gap|])
    ensures SkipSpace(text, pos + i) == pos + |gap|
    decreases |gap| - i
  {
    if i < |gap| {
      AtIndex(text, pos, gap, i);
      SpaceIsWhite(text[pos + i]);
      GapSkipped(text, pos, gap, i + 1);
    } else if pos + |gap| < |text| {
      SpaceIsWhite(text[pos + |gap|]);
    }
  }

  /** What is skipped is a gap. */
  lemma {:induction false} SkippedIsGap(text: string, pos: nat)
    requires pos <= |text|
    ensures White(text[pos..SkipSpace(text, pos)])
    ensures SkipSpace(text, pos) < |text| ==> !IsWhite(text[SkipSpace(text, pos)])
    decreases |text| - pos
  {
    if pos < |text| {
      SpaceIsWhite(text[pos]);
      if IsSpace(text[pos]) {
        SkippedIsGap(text, pos + 1);
        assert text[pos..SkipSpace(text, pos)] == [text[pos]] + text[pos + 1..SkipSpace(text, pos)];
      }
    }
  }

  lemma SkipTwice(text: string, pos: nat)
    requires pos <= |text|
    ensures SkipSpace(text, SkipSpace(text, pos)) == SkipSpace(text, pos)
  {
  }

  // ---------------------------------------------------------------------- joined pieces

  lemma AtJoined(text: string, pos: nat, a: string, b: string)
    requires At(text, pos, a) && At(text, pos + |a|, b)
    ensures At(text, pos, a + b)
  {
    forall k | 0 <= k < |a + b|
      ensures text[pos + k] == (a + b)[k]
    {
      if k < |a| {
        AtIndex(text, pos, a, k);
      } else {
        AtIndex(text, pos + |a|, b, k - |a|);
      }
    }
    IndicesAlike(text, pos, a + b, 0);
  }

  lemma SliceAt(text: string, pos: nat, e: nat)
    requires pos <= e <= |text|
    ensures At(text, pos, text[pos..e])
  {
    IndicesAlike(text, pos, text[pos..e], 0);
  }

  lemma CharAt(text: string, pos: nat)
    requires pos < |text|
    ensures At(text, pos, [text[pos]])
  {
    IndicesAlike(text, pos, [text[pos]], 0);
  }

  // ----------------------------------------------------------------------------- tokens

  const DECIMAL_DIGITS: string := "0123456789"

  /** Decimal digits and their values are given by their place in the alphabet. */
  lemma DecimalDigitExact(c: char, d: nat)
    ensures IsDigit(c) && DigitValue(c) == d <==> d < 10 && DECIMAL_DIGITS[d] == c
    ensures d < 10 ==> Digit(d) == DECIMAL_DIGITS[d]
  {
  }

  /** The words, strings, and numerals: `head` is a sign or the first digit. */
  datatype Token =
    | True
    | False
    | Null
    | Quote(s: string)
    | Whole(head: char, digits: string)
    | Fraction(head: char, digits: string, decimals: string)
    | Scientific(head: char, digits: string, decimals: string, sign: string, exponent: string)

  function Spelling(t: Token): string {
    match t
    case True => "true"
    case False => "false"
    case Null => "null"
    case Quote(s) => "\"" + (s + "\"")
    case Whole(head, digits) => [head] + digits
    case Fraction(head, digits, decimals) => [head] + (digits + ("." + decimals))
    case Scientific(head, digits, decimals, sign, exponent) =>
      [head] + (digits + ("." + (decimals + ("e" + (sign + exponent)))))
  }

  /** A whole number has no leading zeros, not even behind a sign, but it may be a lone sign; there may be
      nothing on either side of a dot; an exponent has digits. */
  ghost predicate TokenOk(t: Token) {
    match t
    case Quote(s) => WellEscaped(s)
    case Whole(head, digits) =>
      && StartsNumber(head) && AllDigits(digits)
      && (digits != [] ==> head != '0' && !(head == '-' && digits[0] == '0'))
    case Fraction(head, digits, decimals) => StartsNumber(head) && AllDigits(digits) && AllDigits(decimals)
    case Scientific(head, digits, decimals, sign, exponent) =>
      && StartsNumber(head) && AllDigits(digits) && AllDigits(decimals)
      && (sign == "" || sign == "+" || sign == "-") && exponent != [] && AllDigits(exponent)
    case _ => true
  }

  /** The number in decimal notation. */
  function Number(s: string): nat {
    if s == [] then 0 else Number(s[..|s| - 1]) * 10 + DigitValue(s[|s| - 1])
  }

  function WholeNumber(head: char, digits: string): int {
    if head == '-' then 0 - Number(digits) else Number([head] + digits)
  }

  function Nearest(n: int): int {
    if n < INT64_MIN then INT64_MIN else if n > INT64_MAX then INT64_MAX else n
  }

  /** `Nearest` is the nearest 64-bit number. */
  lemma NearestIsNearest(n: int, m: int)
    requires INT64_MIN <= m <= INT64_MAX
    ensures INT64_MIN <= Nearest(n) <= INT64_MAX
    ensures if n < m then 0 <= m - Nearest(n) <= m - n else 0 <= Nearest(n) - m <= n - m
    ensures m == n ==> Nearest(n) == n
  {
  }

  function TokenValue(t: Token): Json {
    match t
    case True => Bool(true)
    case False => Bool(false)
    case Null => Nil
    case Quote(s) => Str(s)
    case Whole(head, digits) => Int(Nearest(WholeNumber(head, digits)))
    case Fraction(_, _, _) => Real(Spelling(t))
    case Scientific(_, _, _, _, _) => Real(Spelling(t))
  }

  /** What follows a token does not go on with it. */
  ghost predicate TokenEnds(t: Token, text: string, e: nat) {
    e < |text| ==>
      match t
      case Whole(_, _) => !IsDigit(text[e]) && text[e] != '.'
      case Fraction(_, _, _) => !IsDigit(text[e]) && text[e] != '.' && text[e] != 'e'
      case Scientific(_, _, _, _, _) => !IsDigit(text[e])
      case _ => true
  }

  // --------------------------------------------------------------------------- documents

  /** A text: every token may have white space before it. */
  datatype Doc =
    | Atom(gap: string, token: Token)
    | NoItems(gap: string, inner: string)
    | Items(gap: string, first: Doc, rest: ItemTail)
    | NoMembers(gap: string, inner: string)
    | Members(gap: string, entry: Entry, others: EntryTail)

  /** What follows an item. */
  datatype ItemTail = EndItems(gap: string) | NextItem(gap: string, item: Doc, rest: ItemTail)

  datatype Entry = Entry(gap: string, key: string, colonGap: string, value: Doc)

  /** What follows a member. */
  datatype EntryTail = EndMembers(gap: string) | NextMember(gap: string, entry: Entry, rest: EntryTail)

  function Text(d: Doc): string
    decreases d, 1
  {
    d.gap + Bare(d)
  }

  /** The text without the white space before it. */
  function Bare(d: Doc): string
    decreases d, 0
  {
    match d
    case Atom(_, token) => Spelling(token)
    case NoItems(_, inner) => "[" + (inner + "]")
    case Items(_, first, rest) => "[" + (Text(first) + ItemsText(rest))
    case NoMembers(_, inner) => "{" + (inner + "}")
    case Members(_, entry, others) => "{" + (EntryText(entry) + MembersText(others))
  }

  function ItemsText(t: ItemTail): string
    decreases t
  {
    match t
    case EndItems(gap) => gap + "]"
    case NextItem(gap, item, rest) => gap + ("," + (Text(item) + ItemsText(rest)))
  }

  function EntryText(e: Entry): string
    decreases e, 0
  {
    e.gap + (("\"" + (e.key + "\"")) + (e.colonGap + (":" + Text(e.value))))
  }

  function MembersText(t: EntryTail): string
    decreases t
  {
    match t
    case EndMembers(gap) => gap + "}"
    case NextMember(gap, entry, rest) => gap + ("," + (EntryText(entry) + MembersText(rest)))
  }

  ghost predicate WellFormed(d: Doc)
    decreases d
  {
    && White(d.gap)
    && match d
       case Atom(_, token) => TokenOk(token)
       case NoItems(_, inner) => White(inner)
       case Items(_, first, rest) => WellFormed(first) && ItemsFormed(rest)
       case NoMembers(_, inner) => White(inner)
       case Members(_, entry, others) => EntryFormed(entry) && MembersFormed(others)
  }

  ghost predicate ItemsFormed(t: ItemTail)
    decreases t
  {
    White(t.gap) && (t.NextItem? ==> WellFormed(t.item) && ItemsFormed(t.rest))
  }

  ghost predicate EntryFormed(e: Entry)
    decreases e
  {
    White(e.gap) && WellEscaped(e.key) && White(e.colonGap) && WellFormed(e.value)
  }

  ghost predicate MembersFormed(t: EntryTail)
    decreases t
  {
    White(t.gap) && (t.NextMember? ==> EntryFormed(t.entry) && MembersFormed(t.rest))
  }

  /** The value a text stands for. Of members with the same key the last counts. */
  function Meaning(d: Doc): Json
    decreases d
  {
    match d
    case Atom(_, token) => TokenValue(token)
    case NoItems(_, _) => Arr([])
    case Items(_, first, rest) => Arr([Meaning(first)] + ItemValues(rest))
    case NoMembers(_, _) => Obj([])
    case Members(_, entry, others) => Obj(Collected([EntryMember(entry)] + MemberList(others)))
  }

  function ItemValues(t: ItemTail): seq<Json>
    decreases t
  {
    match t
    case EndItems(_) => []
    case NextItem(_, item, rest) => [Meaning(item)] + ItemValues(rest)
  }

  function EntryMember(e: Entry): Member
    decreases e
  {
    Member(e.key, Meaning(e.value))
  }

  /** The members in the order in which they are written. */
  function MemberList(t: EntryTail): seq<Member>
    decreases t
  {
    match t
    case EndMembers(_) => []
    case NextMember(_, entry, rest) => [EntryMember(entry)] + MemberList(rest)
  }

  /** The `std::map` that results from storing the members one after the other. */
  function Collected(written: seq<Member>): seq<Member> {
    if written == [] then []
    else
      var last := written[|written| - 1];
      Insert(Collected(written[..|written| - 1]), last.key, last.value)
  }

  /** An object has its keys in order, and for each key the last value written for it. */
  lemma {:induction false} CollectedIsMap(written: seq<Member>)
    ensures Ascending(Collected(written)) && MapOf(Collected(written)) == MapOf(written)
  {
    if written != [] {
      var front, last := written[..|written| - 1], written[|written| - 1];
      CollectedIsMap(front);
      InsertAscends(Collected(front), last.key, last.value);
      InsertUpdates(Collected(front), last.key, last.value);
    }
  }

  // ---------------------------------------------------------------- every token is read

  lemma {:induction false} NumberIsDecimalAt(s: string, n: nat)
    requires n <= |s|
    ensures Number(s[..n]) == DecimalAt(s, 0, n)
  {
    if n > 0 {
      NumberIsDecimalAt(s, n - 1);
      assert s[..n][..n - 1] == s[..n - 1];
    }
  }

  lemma NumberAt(text: string, pos: nat, s: string)
    requires At(text, pos, s)
    ensures DecimalAt(text, pos, pos + |s|) == Number(s)
  {
    NumberIsDecimalAt(s, |s|);
    assert s[..|s|] == s;
    DecimalShifted(text, pos, s, 0, |s|);
  }

  lemma WholeAt(text: string, pos: nat, head: char, digits: string)
    requires At(text, pos, [head] + digits)
    ensures IntAt(text, pos, pos + 1 + |digits|) == Nearest(WholeNumber(head, digits))
  {
    AtFirst(text, pos, head, digits);
    if head == '-' {
      NumberAt(text, pos + 1, digits);
    } else {
      NumberAt(text, pos, [head] + digits);
    }
  }

  /** The digits that stand here end where the text goes on with something else. */
  lemma DigitsEndAt(text: string, pos: nat, s: string)
    requires At(text, pos, s) && AllDigits(s) && (pos + |s| < |text| ==> !IsDigit(text[pos + |s|]))
    ensures Digits(text, pos) == pos + |s|
  {
    DigitsAt(text, pos, s);
    DigitsEnd(text, pos, pos + |s|);
  }

  lemma WholeRead(text: string, pos: nat, t: Token)
    requires t.Whole? && TokenOk(t) && At(text, pos, Spelling(t)) && TokenEnds(t, text, pos + |Spelling(t)|)
    ensures text[pos] == t.head && ReadNumber(text, pos) == Done(TokenValue(t), pos + |Spelling(t)|)
  {
    AtFirst(text, pos, t.head, t.digits);
    DigitsEndAt(text, pos + 1, t.digits);
    if t.digits != [] {
      AtIndex(text, pos + 1, t.digits, 0);
    }
    WholeAt(text, pos, t.head, t.digits);
  }

  /** Where the digits end decides what is read. */
  lemma FractionEnds(text: string, pos: nat, e: nat, f: nat)
    requires pos < e < f <= |text| && Digits(text, pos + 1) == e && text[e] == '.' && Digits(text, e + 1) == f
    requires f < |text| ==> text[f] != '.' && text[f] != 'e'
    ensures ReadNumber(text, pos) == Done(Real(text[pos..f]), f)
  {
  }

  lemma ScientificEnds(text: string, pos: nat, e: nat, f: nat, g: nat, h: nat)
    requires pos < e < f < g <= |text| && Digits(text, pos + 1) == e && text[e] == '.' && Digits(text, e + 1) == f
    requires text[f] == 'e' && g == ExponentStart(text, f) && Digits(text, g) == h
    ensures ReadNumber(text, pos) == if g < h then Done(Real(text[pos..h]), h) else Failed
  {
  }

  /** Behind an `e` and a sign, if there is one. */
  function ExponentStart(text: string, f: nat): (g: nat)
    requires f < |text|
    ensures f < g <= |text|
  {
    if f + 1 < |text| && (text[f + 1] == '+' || text[f + 1] == '-') then f + 2 else f + 1
  }

  lemma FractionRead(text: string, pos: nat, t: Token)
    requires t.Fraction? && TokenOk(t) && At(text, pos, Spelling(t)) && TokenEnds(t, text, pos + |Spelling(t)|)
    ensures text[pos] == t.head && ReadNumber(text, pos) == Done(TokenValue(t), pos + |Spelling(t)|)
  {
    AtFirst(text, pos, t.head, t.digits + ("." + t.decimals));
    FractionAt(text, pos, t.digits, t.decimals);
    RealIs(text, pos, Spelling(t), pos + |Spelling(t)|);
  }

  lemma RealIs(text: string, pos: nat, s: string, h: nat)
    requires s != [] && At(text, pos, s) && h == pos + |s| && ReadNumber(text, pos) == Done(Real(text[pos..h]), h)
    ensures ReadNumber(text, pos) == Done(Real(s), h)
  {
    AtSlice(text, pos, s);
  }

  lemma FractionAt(text: string, pos: nat, digits: string, decimals: string)
    requires At(text, pos + 1, digits + ("." + decimals)) && AllDigits(digits) && AllDigits(decimals)
    requires var f := pos + 2 + |digits| + |decimals|;
      f < |text| ==> !IsDigit(text[f]) && text[f] != '.' && text[f] != 'e'
    ensures var f := pos + 2 + |digits| + |decimals|; ReadNumber(text, pos) == Done(Real(text[pos..f]), f)
  {
    AtParts(text, pos + 1, digits, "." + decimals);
    var dot := pos + 1 + |digits|;
    AtFirst(text, dot, '.', decimals);
    DigitsEndAt(text, pos + 1, digits);
    DigitsEndAt(text, dot + 1, decimals);
    FractionEnds(text, pos, dot, dot + 1 + |decimals|);
  }

  lemma ScientificParts(text: string, pos: nat, head: char, digits: string, decimals: string, tail: string)
    requires At(text, pos, [head] + (digits + ("." + (decimals + ("e" + tail)))))
    ensures var dot := pos + 1 + |digits|; var f := dot + 1 + |decimals|;
      && text[pos] == head && At(text, pos + 1, digits) && dot < |text| && text[dot] == '.'
      && At(text, dot + 1, decimals) && f < |text| && text[f] == 'e' && At(text, f + 1, tail)
  {
    AtFirst(text, pos, head, digits + ("." + (decimals + ("e" + tail))));
    AtParts(text, pos + 1, digits, "." + (decimals + ("e" + tail)));
    var dot := pos + 1 + |digits|;
    AtFirst(text, dot, '.', decimals + ("e" + tail));
    AtParts(text, dot + 1, decimals, "e" + tail);
    AtFirst(text, dot + 1 + |decimals|, 'e', tail);
  }

  lemma ExponentFound(text: string, f: nat, sign: string, exponent: string)
    requires f < |text| && (sign == "" || sign == "+" || sign == "-") && exponent != [] && AllDigits(exponent)
    requires At(text, f + 1, sign) && At(text, f + 1 + |sign|, exponent)
    ensures ExponentStart(text, f) == f + 1 + |sign|
  {
    AtIndex(text, f + 1 + |sign|, exponent, 0);
    if sign != "" {
      AtIndex(text, f + 1, sign, 0);
    }
  }

  lemma ScientificAt(text: string, pos: nat, digits: string, decimals: string, sign: string, exponent: string,
                     f: nat, h: nat)
    requires f == pos + 2 + |digits| + |decimals| && h == f + 1 + |sign| + |exponent| <= |text|
    requires AllDigits(digits) && At(text, pos + 1, digits) && text[pos + 1 + |digits|] == '.'
    requires AllDigits(decimals) && At(text, pos + 2 + |digits|, decimals) && text[f] == 'e'
    requires (sign == "" || sign == "+" || sign == "-") && exponent != [] && AllDigits(exponent)
    requires At(text, f + 1, sign + exponent) && (h < |text| ==> !IsDigit(text[h]))
    ensures ReadNumber(text, pos) == Done(Real(text[pos..h]), h)
  {
    AtParts(text, f + 1, sign, exponent);
    DigitsEndAt(text, pos + 1, digits);
    DigitsEndAt(text, pos + 2 + |digits|, decimals);
    DigitsEndAt(text, f + 1 + |sign|, exponent);
    ExponentFound(text, f, sign, exponent);
    ScientificEnds(text, pos, pos + 1 + |digits|, f, f + 1 + |sign|, h);
  }

  lemma ScientificRead(text: string, pos: nat, t: Token)
    requires t.Scientific? && TokenOk(t) && At(text, pos, Spelling(t)) && TokenEnds(t, text, pos + |Spelling(t)|)
    ensures text[pos] == t.head && ReadNumber(text, pos) == Done(TokenValue(t), pos + |Spelling(t)|)
  {
    ScientificParts(text, pos, t.head, t.digits, t.decimals, t.sign + t.exponent);
    var f := pos + 2 + |t.digits| + |t.decimals|;
    ScientificAt(text, pos, t.digits, t.decimals, t.sign, t.exponent, f, pos + |Spelling(t)|);
    RealIs(text, pos, Spelling(t), pos + |Spelling(t)|);
  }

  lemma SpellingStarts(t: Token)
    requires TokenOk(t)
    ensures Spelling(t) != [] && !IsWhite(Spelling(t)[0]) && Spelling(t)[0] !in "[]{},"
  {
  }

  /** A token is read as its value, up to its end, when the text does not go on with it. */
  lemma TokenIsRead(text: string, pos: nat, t: Token)
    requires TokenOk(t) && At(text, pos, Spelling(t)) && TokenEnds(t, text, pos + |Spelling(t)|)
    ensures pos < |text| && ReadScalar(text, pos) == Done(TokenValue(t), pos + |Spelling(t)|)
  {
    SpellingStarts(t);
    AtIndex(text, pos, Spelling(t), 0);
    match t
    case True => WordAt(text, pos, "true");
    case False => WordAt(text, pos, "false");
    case Null => WordAt(text, pos, "null");
    case Quote(s) => StringPrinted(text, pos, s);
    case Whole(_, _) => WholeRead(text, pos, t);
    case Fraction(_, _, _) => FractionRead(text, pos, t);
    case Scientific(_, _, _, _, _) => ScientificRead(text, pos, t);
  }

  // ------------------------------------------------------------ only tokens are scalars

  /** `t` stands here, is right, is over at `e` and has this value. */
  ghost predicate TokenFits(t: Token, text: string, pos: nat, e: nat, v: Json) {
    && TokenOk(t) && At(text, pos, Spelling(t)) && TokenEnds(t, text, pos + |Spelling(t)|)
    && e == pos + |Spelling(t)| && v == TokenValue(t)
  }

  lemma {:induction false} DigitsAreDigits(text: string, pos: nat)
    requires pos <= |text|
    ensures var e := Digits(text, pos);
      AllDigits(text[pos..e]) && At(text, pos, text[pos..e]) && (e < |text| ==> !IsDigit(text[e]))
    decreases |text| - pos
  {
    if pos < |text| && IsDigit(text[pos]) {
      DigitsAreDigits(text, pos + 1);
      assert text[pos..Digits(text, pos)] == [text[pos]] + text[pos + 1..Digits(text, pos)];
    }
    SliceAt(text, pos, Digits(text, pos));
  }

  lemma WholeFound(text: string, pos: nat) returns (t: Token)
    requires pos < |text| && StartsNumber(text[pos]) && ReadNumber(text, pos).Done?
    requires var e := Digits(text, pos + 1); e < |text| ==> text[e] != '.'
    ensures TokenFits(t, text, pos, ReadNumber(text, pos).next, ReadNumber(text, pos).value)
  {
    var e := Digits(text, pos + 1);
    t := Whole(text[pos], text[pos + 1..e]);
    DigitsAreDigits(text, pos + 1);
    CharAt(text, pos);
    AtJoined(text, pos, [text[pos]], t.digits);
    WholeAt(text, pos, t.head, t.digits);
  }

  lemma Split(text: string, a: nat, b: nat, c: nat)
    requires a <= b <= c <= |text|
    ensures text[a..c] == text[a..b] + text[b..c]
  {
  }

  lemma Split1(text: string, a: nat, c: nat)
    requires a < c <= |text|
    ensures text[a..c] == [text[a]] + text[a + 1..c]
  {
  }

  lemma FractionJoined(text: string, pos: nat, e: nat, f: nat)
    requires pos < e < f <= |text| && text[e] == '.'
    ensures text[pos..f] == Spelling(Fraction(text[pos], text[pos + 1..e], text[e + 1..f]))
  {
    Split1(text, pos, f);
    Split(text, pos + 1, e, f);
    Split1(text, e, f);
  }

  lemma FractionFound(text: string, pos: nat, e: nat, f: nat) returns (t: Token)
    requires pos < e < f <= |text| && StartsNumber(text[pos])
    requires Digits(text, pos + 1) == e && text[e] == '.' && Digits(text, e + 1) == f
    requires f < |text| ==> text[f] != '.' && text[f] != 'e'
    ensures TokenFits(t, text, pos, f, Real(text[pos..f]))
  {
    t := Fraction(text[pos], text[pos + 1..e], text[e + 1..f]);
    DigitsAreDigits(text, pos + 1);
    DigitsAreDigits(text, e + 1);
    FractionJoined(text, pos, e, f);
    SliceAt(text, pos, f);
  }

  lemma ScientificJoined(text: string, pos: nat, e: nat, f: nat, g: nat, h: nat)
    requires pos < e < f < g <= h <= |text| && text[e] == '.' && text[f] == 'e'
    ensures text[pos..h]
         == Spelling(Scientific(text[pos], text[pos + 1..e], text[e + 1..f], text[f + 1..g], text[g..h]))
  {
    DotJoined(text, pos, e, f, h);
    ExponentJoined(text, f, g, h);
  }

  lemma DotJoined(text: string, pos: nat, e: nat, f: nat, h: nat)
    requires pos < e < f <= h <= |text| && text[e] == '.'
    ensures text[pos..h] == [text[pos]] + (text[pos + 1..e] + ("." + (text[e + 1..f] + text[f..h])))
  {
    Split1(text, pos, h);
    Split(text, pos + 1, e, h);
    Split1(text, e, h);
    Split(text, e + 1, f, h);
  }

  lemma ExponentJoined(text: string, f: nat, g: nat, h: nat)
    requires f < g <= h <= |text| && text[f] == 'e'
    ensures text[f..h] == "e" + (text[f + 1..g] + text[g..h])
  {
    Split1(text, f, h);
    Split(text, f + 1, g, h);
  }

  lemma SignFound(text: string, f: nat)
    requires f < |text|
    ensures var sign := text[f + 1..ExponentStart(text, f)]; sign == "" || sign == "+" || sign == "-"
  {
  }

  lemma ScientificFound(text: string, pos: nat, e: nat, f: nat, g: nat, h: nat) returns (t: Token)
    requires pos < e < f < g < h <= |text| && StartsNumber(text[pos])
    requires Digits(text, pos + 1) == e && text[e] == '.' && Digits(text, e + 1) == f
    requires text[f] == 'e' && g == ExponentStart(text, f) && Digits(text, g) == h
    ensures TokenFits(t, text, pos, h, Real(text[pos..h]))
  {
    t := Scientific(text[pos], text[pos + 1..e], text[e + 1..f], text[f + 1..g], text[g..h]);
    DigitsAreDigits(text, pos + 1);
    DigitsAreDigits(text, e + 1);
    DigitsAreDigits(text, g);
    SignFound(text, f);
    ScientificJoined(text, pos, e, f, g, h);
    SliceAt(text, pos, h);
  }

  lemma RealFound(text: string, pos: nat, e: nat) returns (t: Token)
    requires pos < e < |text| && StartsNumber(text[pos]) && ReadNumber(text, pos).Done?
    requires Digits(text, pos + 1) == e && text[e] == '.'
    ensures TokenFits(t, text, pos, ReadNumber(text, pos).next, ReadNumber(text, pos).value)
  {
    var f := Digits(text, e + 1);
    if f < |text| && text[f] == 'e' {
      var g := ExponentStart(text, f);
      var h := Digits(text, g);
      ScientificEnds(text, pos, e, f, g, h);
      t := ScientificFound(text, pos, e, f, g, h);
    } else {
      FractionEnds(text, pos, e, f);
      t := FractionFound(text, pos, e, f);
    }
  }

  lemma WordFound(text: string, pos: nat, w: string)
    requires pos + |w| <= |text| && forall k :: 0 <= k < |w| ==> text[pos + k] == w[k]
    ensures At(text, pos, w)
  {
    IndicesAlike(text, pos, w, 0);
  }

  lemma QuoteFoundBack(text: string, pos: nat) returns (t: Token)
    requires pos < |text| && text[pos] == '"' && ReadString(text, pos + 1).Done?
    ensures TokenFits(t, text, pos, ReadString(text, pos + 1).next, ReadString(text, pos + 1).value)
  {
    var e := ClosingQuote(text, pos + 1);
    t := Quote(text[pos + 1..e]);
    TokenWellEscaped(text, pos + 1);
    QuoteJoined(text, pos, e);
    SliceAt(text, pos, e + 1);
  }

  lemma QuoteJoined(text: string, pos: nat, e: nat)
    requires pos < e < |text| && text[pos] == '"' && text[e] == '"'
    ensures text[pos..e + 1] == "\"" + (text[pos + 1..e] + "\"")
  {
  }

  /** Whatever is read as a scalar is a token. */
  lemma TokenFound(text: string, pos: nat) returns (t: Token)
    requires pos < |text| && ReadScalar(text, pos).Done?
    ensures TokenFits(t, text, pos, ReadScalar(text, pos).next, ReadScalar(text, pos).value)
  {
    if text[pos] == 't' {
      t := True;
      WordFound(text, pos, "true");
    } else if text[pos] == 'f' {
      t := False;
      WordFound(text, pos, "false");
    } else if StartsNumber(text[pos]) {
      var e := Digits(text, pos + 1);
      if e == |text| || text[e] != '.' {
        t := WholeFound(text, pos);
      } else {
        t := RealFound(text, pos, e);
      }
    } else if text[pos] == 'n' {
      t := Null;
      WordFound(text, pos, "null");
    } else {
      t := QuoteFoundBack(text, pos);
    }
  }

  // ------------------------------------------------------------- every document is read

  /** What follows a document does not go on with it. */
  ghost predicate Ends(d: Doc, text: string, e: nat) {
    d.Atom? ==> TokenEnds(d.token, text, e)
  }

  /** Between the tokens of a document stand characters that end every token. */
  predicate Separates(c: char) {
    IsWhite(c) || c == ',' || c == ']' || c == '}'
  }

  lemma SeparatorEnds(d: Doc, text: string, e: nat, tail: string)
    requires At(text, e, tail) && tail != [] && Separates(tail[0])
    ensures Ends(d, text, e)
  {
    AtIndex(text, e, tail, 0);
  }

  lemma TailSeparates(gap: string, c: char, rest: string)
    requires White(gap) && Separates(c)
    ensures gap + ([c] + rest) != [] && Separates((gap + ([c] + rest))[0])
  {
  }

  lemma ItemsTextSeparates(t: ItemTail)
    requires ItemsFormed(t)
    ensures ItemsText(t) != [] && Separates(ItemsText(t)[0])
  {
    match t
    case EndItems(gap) => TailSeparates(gap, ']', []);
    case NextItem(gap, item, rest) => TailSeparates(gap, ',', Text(item) + ItemsText(rest));
  }

  lemma MembersTextSeparates(t: EntryTail)
    requires MembersFormed(t)
    ensures MembersText(t) != [] && Separates(MembersText(t)[0])
  {
    match t
    case EndMembers(gap) => TailSeparates(gap, '}', []);
    case NextMember(gap, entry, rest) => TailSeparates(gap, ',', EntryText(entry) + MembersText(rest));
  }

  /** White space and then this character. */
  lemma GapThen(text: string, pos: nat, gap: string, c: char, rest: string)
    requires White(gap) && !IsWhite(c) && At(text, pos, gap + ([c] + rest))
    ensures var p := pos + |gap|;
      SkipSpace(text, pos) == p < |text| && text[p] == c && At(text, p + 1, rest)
  {
    AtParts(text, pos, gap, [c] + rest);
    AtFirst(text, pos + |gap|, c, rest);
    GapSkipped(text, pos, gap, 0);
  }

  lemma BareStarts(d: Doc)
    requires WellFormed(d)
    ensures Bare(d) != [] && !IsWhite(Bare(d)[0]) && Bare(d)[0] !in "]},"
  {
    if d.Atom? {
      SpellingStarts(d.token);
    }
  }

  /** White space and then a document. */
  lemma DocStarts(text: string, pos: nat, d: Doc)
    requires WellFormed(d) && At(text, pos, Text(d))
    ensures var p := pos + |d.gap|;
      SkipSpace(text, pos) == p < |text| && text[p] == Bare(d)[0] && text[p] !in "]}," && At(text, p, Bare(d))
  {
    BareStarts(d);
    AtParts(text, pos, d.gap, Bare(d));
    AtIndex(text, pos + |d.gap|, Bare(d), 0);
    GapSkipped(text, pos, d.gap, 0);
  }

  /** A document is read as its meaning, up to its end, wherever it stands. */
  lemma {:induction false} DocIsRead(text: string, pos: nat, d: Doc)
    requires WellFormed(d) && At(text, pos, Text(d)) && Ends(d, text, pos + |Text(d)|)
    ensures ReadValue(text, pos) == Done(Meaning(d), pos + |Text(d)|)
    decreases |text| - pos, 4
  {
    DocStarts(text, pos, d);
    BareIsRead(text, pos + |d.gap|, d);
  }

  lemma {:induction false} BareIsRead(text: string, p: nat, d: Doc)
    requires WellFormed(d) && At(text, p, Bare(d)) && Ends(d, text, p + |Bare(d)|)
    ensures p < |text| && ReadAt(text, p) == Done(Meaning(d), p + |Bare(d)|)
    decreases |text| - p, 3
  {
    match d
    case Atom(_, token) => AtomIsRead(text, p, token);
    case NoItems(_, inner) => NoItemsRead(text, p, inner);
    case NoMembers(_, inner) => NoMembersRead(text, p, inner);
    case Items(_, first, rest) =>
      CharThenTwo(text, p, '[', Text(first), ItemsText(rest));
      ArrayIsRead(text, p + 1, first, rest);
      ExtendedIs([Meaning(first)], rest);
    case Members(_, entry, others) =>
      CharThenTwo(text, p, '{', EntryText(entry), MembersText(others));
      ObjectIsRead(text, p + 1, entry, others);
      FilledIs([EntryMember(entry)], others);
      CollectedOne(EntryMember(entry));
  }

  lemma CharThenTwo(text: string, p: nat, c: char, a: string, b: string)
    requires At(text, p, [c] + (a + b))
    ensures text[p] == c && At(text, p + 1, a) && At(text, p + 1 + |a|, b)
    ensures p + 1 + |a| + |b| == p + |[c] + (a + b)|
  {
    AtFirst(text, p, c, a + b);
    AtParts(text, p + 1, a, b);
  }

  lemma NoItemsRead(text: string, p: nat, inner: string)
    requires White(inner) && At(text, p, "[" + (inner + "]"))
    ensures ReadAt(text, p) == Done(Arr([]), p + 2 + |inner|)
  {
    AtFirst(text, p, '[', inner + "]");
    assert inner + "]" == inner + ([']'] + []);
    GapThen(text, p + 1, inner, ']', []);
  }

  lemma NoMembersRead(text: string, p: nat, inner: string)
    requires White(inner) && At(text, p, "{" + (inner + "}"))
    ensures ReadAt(text, p) == Done(Obj([]), p + 2 + |inner|)
  {
    AtFirst(text, p, '{', inner + "}");
    assert inner + "}" == inner + (['}'] + []);
    GapThen(text, p + 1, inner, '}', []);
  }

  lemma AtomIsRead(text: string, p: nat, t: Token)
    requires TokenOk(t) && At(text, p, Spelling(t)) && TokenEnds(t, text, p + |Spelling(t)|)
    ensures p < |text| && ReadAt(text, p) == Done(TokenValue(t), p + |Spelling(t)|)
  {
    SpellingStarts(t);
    AtIndex(text, p, Spelling(t), 0);
    TokenIsRead(text, p, t);
  }

  // ----- arrays

  /** How reading goes on after an item. */
  ghost function AfterItem(text: string, pos: nat, items: seq<Json>): Read<Json>
    requires pos <= |text|
  {
    var more := ReadSeparator(text, pos, ']');
    if more.Failed? then Failed
    else if more.value then ReadItems(text, more.next, items)
    else Done(Arr(items), more.next)
  }

  lemma ItemsGoOn(text: string, pos: nat, items: seq<Json>)
    requires pos <= |text|
    ensures var v := ReadValue(text, pos);
      ReadItems(text, pos, items) == if v.Failed? then Failed else AfterItem(text, v.next, items + [v.value])
  {
  }

  lemma ItemsSkip(text: string, pos: nat, items: seq<Json>)
    requires pos <= |text|
    ensures ReadItems(text, SkipSpace(text, pos), items) == ReadItems(text, pos, items)
  {
    SkipTwice(text, pos);
    ItemsGoOn(text, pos, items);
    ItemsGoOn(text, SkipSpace(text, pos), items);
  }

  /** The items with those of the tail. */
  ghost function Extended(items: seq<Json>, t: ItemTail): seq<Json>
    decreases t
  {
    match t
    case EndItems(_) => items
    case NextItem(_, item, rest) => Extended(items + [Meaning(item)], rest)
  }

  lemma OneBetween<T>(a: seq<T>, x: T, b: seq<T>)
    ensures a + [x] + b == a + ([x] + b)
  {
  }

  lemma {:induction false} ExtendedIs(items: seq<Json>, t: ItemTail)
    ensures Extended(items, t) == items + ItemValues(t)
    decreases t
  {
    if t.NextItem? {
      ExtendedIs(items + [Meaning(t.item)], t.rest);
      OneBetween(items, Meaning(t.item), ItemValues(t.rest));
    }
  }

  lemma {:induction false} ArrayIsRead(text: string, pos: nat, first: Doc, rest: ItemTail)
    requires WellFormed(first) && ItemsFormed(rest)
    requires At(text, pos, Text(first)) && At(text, pos + |Text(first)|, ItemsText(rest))
    ensures ReadArray(text, pos)
         == Done(Arr(Extended([Meaning(first)], rest)), pos + |Text(first)| + |ItemsText(rest)|)
    decreases |text| - pos, 6
  {
    ItemAndTailRead(text, pos, first, rest, []);
    DocStarts(text, pos, first);
    ItemsSkip(text, pos, []);
    assert [] + [Meaning(first)] == [Meaning(first)];
  }

  lemma {:induction false} ItemAndTailRead(text: string, pos: nat, item: Doc, rest: ItemTail, items: seq<Json>)
    requires WellFormed(item) && ItemsFormed(rest)
    requires At(text, pos, Text(item)) && At(text, pos + |Text(item)|, ItemsText(rest))
    ensures ReadItems(text, pos, items)
         == Done(Arr(Extended(items + [Meaning(item)], rest)), pos + |Text(item)| + |ItemsText(rest)|)
    decreases |text| - pos, 5
  {
    ItemsTextSeparates(rest);
    SeparatorEnds(item, text, pos + |Text(item)|, ItemsText(rest));
    DocIsRead(text, pos, item);
    ItemsGoOn(text, pos, items);
    ItemTailRead(text, pos + |Text(item)|, rest, items + [Meaning(item)]);
  }

  lemma ItemsOver(text: string, pos: nat, gap: string, items: seq<Json>)
    requires White(gap) && At(text, pos, gap + "]")
    ensures AfterItem(text, pos, items) == Done(Arr(items), pos + |gap| + 1)
  {
    assert gap + "]" == gap + ([']'] + []);
    GapThen(text, pos, gap, ']', []);
  }

  lemma ItemComma(text: string, pos: nat, gap: string, a: string, b: string, items: seq<Json>)
    requires White(gap) && At(text, pos, gap + ("," + (a + b)))
    ensures var p := pos + |gap| + 1;
      && AfterItem(text, pos, items) == ReadItems(text, p, items)
      && At(text, p, a) && At(text, p + |a|, b) && p + |a| + |b| == pos + |gap + ("," + (a + b))|
  {
    GapThen(text, pos, gap, ',', a + b);
    AtParts(text, pos + |gap| + 1, a, b);
  }

  lemma {:induction false} ItemTailRead(text: string, pos: nat, t: ItemTail, items: seq<Json>)
    requires ItemsFormed(t) && At(text, pos, ItemsText(t))
    ensures AfterItem(text, pos, items) == Done(Arr(Extended(items, t)), pos + |ItemsText(t)|)
    decreases |text| - pos, 1
  {
    match t
    case EndItems(gap) => ItemsOver(text, pos, gap, items);
    case NextItem(gap, item, rest) =>
      ItemComma(text, pos, gap, Text(item), ItemsText(rest), items);
      ItemAndTailRead(text, pos + |gap| + 1, item, rest, items);
  }

  // ----- objects

  /** How reading goes on after a member. */
  ghost function AfterMember(text: string, pos: nat, members: seq<Member>): Read<Json>
    requires pos <= |text|
  {
    var more := ReadSeparator(text, pos, '}');
    if more.Failed? then Failed
    else if !more.value then Done(Obj(members), more.next)
    else NextMembers(text, more.next, members)
  }

  /** The members from here on. */
  ghost function NextMembers(text: string, pos: nat, members: seq<Member>): Read<Json>
    requires pos <= |text|
  {
    var p := SkipSpace(text, pos);
    if p == |text| then Failed else ReadMembers(text, p, members)
  }

  lemma MembersGoOn(text: string, pos: nat, members: seq<Member>, m: Member, next: nat)
    requires pos <= |text| && SkipSpace(text, pos) < |text| && next <= |text|
    requires ReadMember(text, SkipSpace(text, pos)) == Done(m, next)
    ensures NextMembers(text, pos, members) == AfterMember(text, next, Stored(members, m))
  {
  }

  /** Storing a member that was read. */
  function Stored(members: seq<Member>, m: Member): seq<Member> {
    Insert(members, m.key, m.value)
  }

  /** The members with those of the tail stored. */
  ghost function Filled(members: seq<Member>, t: EntryTail): seq<Member>
    decreases t
  {
    match t
    case EndMembers(_) => members
    case NextMember(_, entry, rest) => Filled(Stored(members, EntryMember(entry)), rest)
  }

  lemma CollectedMore(written: seq<Member>, m: Member)
    ensures Collected(written + [m]) == Stored(Collected(written), m)
  {
    assert (written + [m])[..|written|] == written;
  }

  lemma CollectedOne(m: Member)
    ensures Collected([m]) == Stored([], m)
  {
    CollectedMore([], m);
    assert [] + [m] == [m];
  }

  lemma {:induction false} FilledIs(written: seq<Member>, t: EntryTail)
    ensures Filled(Collected(written), t) == Collected(written + MemberList(t))
    decreases t
  {
    if t.NextMember? {
      var m := EntryMember(t.entry);
      CollectedMore(written, m);
      FilledIs(written + [m], t.rest);
      OneBetween(written, m, MemberList(t.rest));
    } else {
      assert written + [] == written;
    }
  }

  lemma {:induction false} ObjectIsRead(text: string, pos: nat, e: Entry, t: EntryTail)
    requires EntryFormed(e) && MembersFormed(t)
    requires At(text, pos, EntryText(e)) && At(text, pos + |EntryText(e)|, MembersText(t))
    ensures ReadObject(text, pos)
         == Done(Obj(Filled(Stored([], EntryMember(e)), t)), pos + |EntryText(e)| + |MembersText(t)|)
    decreases |text| - pos, 7
  {
    EntryAndTailRead(text, pos, e, t, []);
    EntryStarts(text, pos, e);
  }

  /** White space and then the quote of a key. */
  lemma EntryStarts(text: string, pos: nat, e: Entry)
    requires EntryFormed(e) && At(text, pos, EntryText(e))
    ensures var p := pos + |e.gap|; SkipSpace(text, pos) == p < |text| && text[p] == '"'
  {
    var rest := e.key + "\"" + (e.colonGap + (":" + Text(e.value)));
    assert EntryText(e) == e.gap + (['"'] + rest);
    GapThen(text, pos, e.gap, '"', rest);
  }

  lemma {:induction false} EntryAndTailRead(text: string, pos: nat, e: Entry, t: EntryTail, members: seq<Member>)
    requires EntryFormed(e) && MembersFormed(t)
    requires At(text, pos, EntryText(e)) && At(text, pos + |EntryText(e)|, MembersText(t))
    ensures NextMembers(text, pos, members)
         == Done(Obj(Filled(Stored(members, EntryMember(e)), t)), pos + |EntryText(e)| + |MembersText(t)|)
    decreases |text| - pos, 6
  {
    MembersTextSeparates(t);
    SeparatorEnds(e.value, text, pos + |EntryText(e)|, MembersText(t));
    EntryIsRead(text, pos, e);
    EntryThen(text, pos, e, members);
    EntryTailRead(text, pos + |EntryText(e)|, t, Stored(members, EntryMember(e)));
  }

  lemma EntryThen(text: string, pos: nat, e: Entry, members: seq<Member>)
    requires EntryFormed(e) && At(text, pos, EntryText(e)) && pos + |e.gap| < |text|
    requires ReadMember(text, pos + |e.gap|) == Done(EntryMember(e), pos + |EntryText(e)|)
    ensures NextMembers(text, pos, members)
         == AfterMember(text, pos + |EntryText(e)|, Stored(members, EntryMember(e)))
  {
    EntryStarts(text, pos, e);
    MembersGoOn(text, pos, members, EntryMember(e), pos + |EntryText(e)|);
  }

  lemma MembersOver(text: string, pos: nat, gap: string, members: seq<Member>)
    requires White(gap) && At(text, pos, gap + "}")
    ensures AfterMember(text, pos, members) == Done(Obj(members), pos + |gap| + 1)
  {
    assert gap + "}" == gap + (['}'] + []);
    GapThen(text, pos, gap, '}', []);
  }

  lemma MemberComma(text: string, pos: nat, gap: string, a: string, b: string, members: seq<Member>)
    requires White(gap) && At(text, pos, gap + ("," + (a + b)))
    ensures var p := pos + |gap| + 1;
      && p <= |text| && AfterMember(text, pos, members) == NextMembers(text, p, members)
      && At(text, p, a) && At(text, p + |a|, b) && p + |a| + |b| == pos + |gap + ("," + (a + b))|
  {
    GapThen(text, pos, gap, ',', a + b);
    AtParts(text, pos + |gap| + 1, a, b);
  }

  lemma {:induction false} EntryTailRead(text: string, pos: nat, t: EntryTail, members: seq<Member>)
    requires MembersFormed(t) && At(text, pos, MembersText(t))
    ensures AfterMember(text, pos, members) == Done(Obj(Filled(members, t)), pos + |MembersText(t)|)
    decreases |text| - pos, 1
  {
    match t
    case EndMembers(gap) => MembersOver(text, pos, gap, members);
    case NextMember(gap, entry, rest) =>
      MemberComma(text, pos, gap, EntryText(entry), MembersText(rest), members);
      EntryAndTailRead(text, pos + |gap| + 1, entry, rest, members);
  }

  lemma {:induction false} EntryIsRead(text: string, pos: nat, e: Entry)
    requires EntryFormed(e) && At(text, pos, EntryText(e)) && Ends(e.value, text, pos + |EntryText(e)|)
    ensures pos + |e.gap| < |text| && ReadMember(text, pos + |e.gap|) == Done(EntryMember(e), pos + |EntryText(e)|)
    decreases |text| - pos, 5
  {
    var q := KeyRead(text, pos, e);
    DocIsRead(text, q + 1, e.value);
  }

  /** A key and its colon. */
  lemma KeyRead(text: string, pos: nat, e: Entry) returns (q: nat)
    requires EntryFormed(e) && At(text, pos, EntryText(e))
    ensures var p := pos + |e.gap|;
      && p < |text| && text[p] == '"' && ReadToken(text, p + 1).Done? && ReadToken(text, p + 1).value == e.key
      && ReadToken(text, p + 1).next <= |text| && SkipSpace(text, ReadToken(text, p + 1).next) == q
    ensures q < |text| && text[q] == ':' && At(text, q + 1, Text(e.value))
    ensures q + 1 + |Text(e.value)| == pos + |EntryText(e)| && |Text(e.value)| < |EntryText(e)|
  {
    var quoted, value := "\"" + (e.key + "\""), Text(e.value);
    AtParts(text, pos, e.gap, quoted + (e.colonGap + (":" + value)));
    var p := pos + |e.gap|;
    AtParts(text, p, quoted, e.colonGap + (":" + value));
    StringPrinted(text, p, e.key);
    GapThen(text, p + |quoted|, e.colonGap, ':', value);
    q := p + |quoted| + |e.colonGap|;
  }

  // ------------------------------------------------------------- only documents are read

  /** `d` stands in the text from `pos` to `e`, is over there, and means `v`. */
  ghost predicate Fits(d: Doc, text: string, pos: nat, e: nat, v: Json) {
    && WellFormed(d) && At(text, pos, Text(d)) && Ends(d, text, e)
    && e == pos + |Text(d)| && v == Meaning(d)
  }

  /** The same without the white space before it. */
  ghost predicate BareFits(d: Doc, text: string, p: nat, e: nat, v: Json) {
    && WellFormed(d) && At(text, p, Bare(d)) && Ends(d, text, e)
    && e == p + |Bare(d)| && v == Meaning(d)
  }

  /** White space, a character and what follows it. */
  lemma GapJoined(text: string, pos: nat, p: nat, rest: string)
    requires pos <= p < |text| && At(text, p + 1, rest)
    ensures At(text, pos, text[pos..p] + ([text[p]] + rest))
    ensures |text[pos..p] + ([text[p]] + rest)| == p - pos + 1 + |rest|
  {
    SliceAt(text, pos, p);
    CharAt(text, p);
    AtJoined(text, p, [text[p]], rest);
    AtJoined(text, pos, text[pos..p], [text[p]] + rest);
  }

  /** White space and a character that ends it. */
  lemma GapEnds(text: string, pos: nat, p: nat)
    requires pos <= p < |text|
    ensures At(text, pos, text[pos..p] + [text[p]])
  {
    SliceAt(text, pos, p);
    CharAt(text, p);
    AtJoined(text, pos, text[pos..p], [text[p]]);
  }

  lemma CharThenTwoJoined(text: string, p: nat, a: string, b: string)
    requires p < |text| && At(text, p + 1, a) && At(text, p + 1 + |a|, b)
    ensures At(text, p, [text[p]] + (a + b)) && p + 1 + |a| + |b| == p + |[text[p]] + (a + b)|
  {
    AtJoined(text, p + 1, a, b);
    CharJoined(text, p, a + b);
  }

  lemma CharJoined(text: string, p: nat, rest: string)
    requires p < |text| && At(text, p + 1, rest)
    ensures At(text, p, [text[p]] + rest)
  {
    CharAt(text, p);
    AtJoined(text, p, [text[p]], rest);
  }

  /** Two brackets with only white space between them. */
  lemma EmptyFound(text: string, p: nat)
    requires p < |text| && SkipSpace(text, p + 1) < |text|
    ensures var q := SkipSpace(text, p + 1);
      White(text[p + 1..q]) && At(text, p, [text[p]] + (text[p + 1..q] + [text[q]]))
  {
    var q := SkipSpace(text, p + 1);
    SkippedIsGap(text, p + 1);
    GapEnds(text, p + 1, q);
    CharJoined(text, p, text[p + 1..q] + [text[q]]);
  }

  lemma {:induction false} DocFound(text: string, pos: nat) returns (d: Doc)
    requires pos <= |text| && ReadValue(text, pos).Done?
    ensures Fits(d, text, pos, ReadValue(text, pos).next, ReadValue(text, pos).value)
    decreases |text| - pos, 4
  {
    var p := SkipSpace(text, pos);
    SkippedIsGap(text, pos);
    d := BareFound(text, p, text[pos..p]);
    SliceAt(text, pos, p);
    AtJoined(text, pos, text[pos..p], Bare(d));
  }

  lemma {:induction false} BareFound(text: string, p: nat, gap: string) returns (d: Doc)
    requires p < |text| && White(gap) && ReadAt(text, p).Done?
    ensures d.gap == gap && BareFits(d, text, p, ReadAt(text, p).next, ReadAt(text, p).value)
    decreases |text| - p, 3
  {
    if text[p] == '[' {
      d := ArrayFound(text, p, gap);
    } else if text[p] == '{' {
      d := ObjectFound(text, p, gap);
    } else {
      var token := TokenFound(text, p);
      d := Atom(gap, token);
    }
  }

  // ----- arrays

  lemma {:induction false} ArrayFound(text: string, p: nat, gap: string) returns (d: Doc)
    requires p < |text| && White(gap) && text[p] == '[' && ReadArray(text, p + 1).Done?
    ensures d.gap == gap && BareFits(d, text, p, ReadArray(text, p + 1).next, ReadArray(text, p + 1).value)
    decreases |text| - p, 2
  {
    if text[SkipSpace(text, p + 1)] == ']' {
      d := NoItems(gap, text[p + 1..SkipSpace(text, p + 1)]);
      EmptyFound(text, p);
    } else {
      ItemsSkip(text, p + 1, []);
      var first, rest := ItemsFound(text, p + 1, []);
      d := Items(gap, first, rest);
      CharThenTwoJoined(text, p, Text(first), ItemsText(rest));
      assert [] + [Meaning(first)] == [Meaning(first)];
      ExtendedIs([Meaning(first)], rest);
    }
  }

  lemma {:induction false} ItemsFound(text: string, pos: nat, items: seq<Json>) returns (item: Doc, rest: ItemTail)
    requires pos <= |text| && ReadItems(text, pos, items).Done?
    ensures WellFormed(item) && ItemsFormed(rest)
    ensures At(text, pos, Text(item)) && At(text, pos + |Text(item)|, ItemsText(rest))
    ensures ReadItems(text, pos, items)
         == Done(Arr(Extended(items + [Meaning(item)], rest)), pos + |Text(item)| + |ItemsText(rest)|)
    decreases |text| - pos, 5
  {
    ItemsGoOn(text, pos, items);
    item := DocFound(text, pos);
    rest := ItemTailFound(text, pos + |Text(item)|, items + [Meaning(item)]);
  }

  lemma {:induction false} ItemTailFound(text: string, pos: nat, items: seq<Json>) returns (t: ItemTail)
    requires pos <= |text| && AfterItem(text, pos, items).Done?
    ensures ItemsFormed(t) && At(text, pos, ItemsText(t))
    ensures AfterItem(text, pos, items) == Done(Arr(Extended(items, t)), pos + |ItemsText(t)|)
    decreases |text| - pos, 1
  {
    var p := SkipSpace(text, pos);
    SkippedIsGap(text, pos);
    if text[p] == ']' {
      t := EndItems(text[pos..p]);
      GapEnds(text, pos, p);
    } else {
      var item, rest := ItemsFound(text, p + 1, items);
      t := NextItem(text[pos..p], item, rest);
      AtJoined(text, p + 1, Text(item), ItemsText(rest));
      GapJoined(text, pos, p, Text(item) + ItemsText(rest));
    }
  }

  // ----- objects

  lemma {:induction false} ObjectFound(text: string, p: nat, gap: string) returns (d: Doc)
    requires p < |text| && White(gap) && text[p] == '{' && ReadObject(text, p + 1).Done?
    ensures d.gap == gap && BareFits(d, text, p, ReadObject(text, p + 1).next, ReadObject(text, p + 1).value)
    decreases |text| - p, 2
  {
    if text[SkipSpace(text, p + 1)] == '}' {
      d := NoMembers(gap, text[p + 1..SkipSpace(text, p + 1)]);
      EmptyFound(text, p);
    } else {
      var entry, others := MembersFound(text, p + 1, []);
      d := Members(gap, entry, others);
      CharThenTwoJoined(text, p, EntryText(entry), MembersText(others));
      FilledIs([EntryMember(entry)], others);
      CollectedOne(EntryMember(entry));
    }
  }

  lemma {:induction false} MembersFound(text: string, pos: nat, members: seq<Member>)
    returns (e: Entry, t: EntryTail)
    requires pos <= |text| && NextMembers(text, pos, members).Done?
    ensures EntryFormed(e) && MembersFormed(t)
    ensures At(text, pos, EntryText(e)) && At(text, pos + |EntryText(e)|, MembersText(t))
    ensures NextMembers(text, pos, members)
         == Done(Obj(Filled(Stored(members, EntryMember(e)), t)), pos + |EntryText(e)| + |MembersText(t)|)
    decreases |text| - pos, 5
  {
    var m := ReadMember(text, SkipSpace(text, pos));
    MembersGoOn(text, pos, members, m.value, m.next);
    e := EntryFound(text, pos);
    t := EntryTailFound(text, pos + |EntryText(e)|, Stored(members, EntryMember(e)));
  }

  lemma {:induction false} EntryTailFound(text: string, pos: nat, members: seq<Member>) returns (t: EntryTail)
    requires pos <= |text| && AfterMember(text, pos, members).Done?
    ensures MembersFormed(t) && At(text, pos, MembersText(t))
    ensures AfterMember(text, pos, members) == Done(Obj(Filled(members, t)), pos + |MembersText(t)|)
    decreases |text| - pos, 1
  {
    var p := SkipSpace(text, pos);
    SkippedIsGap(text, pos);
    if text[p] == '}' {
      t := EndMembers(text[pos..p]);
      GapEnds(text, pos, p);
    } else {
      var entry, rest := MembersFound(text, p + 1, members);
      t := NextMember(text[pos..p], entry, rest);
      AtJoined(text, p + 1, EntryText(entry), MembersText(rest));
      GapJoined(text, pos, p, EntryText(entry) + MembersText(rest));
    }
  }

  lemma {:induction false} EntryFound(text: string, pos: nat) returns (e: Entry)
    requires pos <= |text| && SkipSpace(text, pos) < |text| && ReadMember(text, SkipSpace(text, pos)).Done?
    ensures EntryFormed(e) && At(text, pos, EntryText(e))
    ensures ReadMember(text, SkipSpace(text, pos)) == Done(EntryMember(e), pos + |EntryText(e)|)
    decreases |text| - pos, 4
  {
    var p := SkipSpace(text, pos);
    var r, q := MemberShape(text, p);
    var value := DocFound(text, q + 1);
    e := KeyFound(text, pos, p, r, q, value);
  }

  lemma MemberShape(text: string, p: nat) returns (r: nat, q: nat)
    requires p < |text| && ReadMember(text, p).Done?
    ensures text[p] == '"' && ReadToken(text, p + 1).Done? && p < r == ReadToken(text, p + 1).next <= |text|
    ensures r <= q == SkipSpace(text, r) < |text| && text[q] == ':' && ReadValue(text, q + 1).Done?
    ensures var v := ReadValue(text, q + 1);
      ReadMember(text, p) == Done(Member(ReadToken(text, p + 1).value, v.value), v.next)
  {
    r := ReadToken(text, p + 1).next;
    q := SkipSpace(text, r);
  }

  lemma KeyFound(text: string, pos: nat, p: nat, r: nat, q: nat, value: Doc) returns (e: Entry)
    requires pos <= p < r <= q < |text| && p == SkipSpace(text, pos) && text[p] == '"'
    requires ReadToken(text, p + 1).Done? && ReadToken(text, p + 1).next == r && q == SkipSpace(text, r)
    requires text[q] == ':' && WellFormed(value) && At(text, q + 1, Text(value))
    ensures EntryFormed(e) && At(text, pos, EntryText(e)) && e.value == value
    ensures e.key == ReadToken(text, p + 1).value && pos + |EntryText(e)| == q + 1 + |Text(value)|
  {
    e := Entry(text[pos..p], ReadToken(text, p + 1).value, text[r..q], value);
    SkippedIsGap(text, pos);
    SkippedIsGap(text, r);
    QuotedAt(text, p, e.key, r);
    SliceAt(text, pos, p);
    SliceAt(text, r, q);
    EntryJoined(text, pos, e, r, q);
  }

  lemma QuotedAt(text: string, p: nat, key: string, r: nat)
    requires p < |text| && text[p] == '"' && ReadToken(text, p + 1) == Done(key, r)
    ensures WellEscaped(key) && At(text, p, "\"" + (key + "\"")) && r == p + 2 + |key|
  {
    var t := QuoteFoundBack(text, p);
    assert t == Quote(key);
  }

  lemma EntryJoined(text: string, pos: nat, e: Entry, r: nat, q: nat)
    requires At(text, pos, e.gap) && At(text, pos + |e.gap|, "\"" + (e.key + "\""))
    requires r == pos + |e.gap| + 2 + |e.key| && At(text, r, e.colonGap) && q == r + |e.colonGap|
    requires q < |text| && text[q] == ':' && At(text, q + 1, Text(e.value))
    ensures At(text, pos, EntryText(e)) && pos + |EntryText(e)| == q + 1 + |Text(e.value)|
  {
    CharJoined(text, q, Text(e.value));
    AtJoined(text, r, e.colonGap, ":" + Text(e.value));
    ThreeJoined(text, pos, e.gap, "\"" + (e.key + "\""), e.colonGap + (":" + Text(e.value)));
  }

  lemma ThreeJoined(text: string, pos: nat, a: string, b: string, c: string)
    requires At(text, pos, a) && At(text, pos + |a|, b) && At(text, pos + |a| + |b|, c)
    ensures At(text, pos, a + (b + c))
  {
    AtJoined(text, pos + |a|, b, c);
    AtJoined(text, pos, a, b + c);
  }

  // ------------------------------------------------------------------------- the theorems

  /** The reader reads exactly the documents: from any text at any position it returns a value if and
      only if a document with that meaning stands there and is over where the reader stops. */
  lemma ReadsExactly(text: string, pos: nat, e: nat, v: Json)
    requires pos <= |text|
    ensures ReadValue(text, pos) == Done(v, e) <==> exists d :: Fits(d, text, pos, e, v)
  {
    if ReadValue(text, pos) == Done(v, e) {
      var d := DocFound(text, pos);
    }
    forall d | Fits(d, text, pos, e, v)
      ensures ReadValue(text, pos) == Done(v, e)
    {
      FittingIsRead(text, pos, e, v, d);
    }
  }

  lemma FittingIsRead(text: string, pos: nat, e: nat, v: Json, d: Doc)
    requires pos <= |text| && Fits(d, text, pos, e, v)
    ensures ReadValue(text, pos) == Done(v, e)
  {
    DocIsRead(text, pos, d);
  }

  lemma RealHasExponent(t: Token)
    requires TokenOk(t) && TokenValue(t).Real?
    ensures 'e' in Spelling(t) <==> t.Scientific?
  {
    if t.Scientific? {
      assert Spelling(t)[2 + |t.digits| + |t.decimals|] == 'e';
    } else {
      forall i | 0 <= i < |Spelling(t)|
        ensures Spelling(t)[i] != 'e'
      {
        assert i > 1 + |t.digits| ==> Spelling(t)[i] == t.decimals[i - 2 - |t.digits|];
      }
    }
  }

  /** A real without exponent that the text ends with. */
  ghost predicate EndsInFraction(d: Doc, text: string, e: nat) {
    e == |text| && d.Atom? && d.token.Fraction?
  }

  lemma EndsBareExact(d: Doc, text: string, e: nat, v: Json)
    requires Fits(d, text, 0, e, v)
    ensures EndsBare(text, Done(v, e)) <==> EndsInFraction(d, text, e)
  {
    if v.Real? {
      RealHasExponent(d.token);
    }
  }

  /** `fromString` succeeds exactly on texts that start with a document, unless they end there in a real
      without exponent. */
  lemma FromStringExact(source: string, e: nat, v: Json)
    ensures FromString(source) == Done(v, e)
       <==> exists d :: Fits(d, source, 0, e, v) && !EndsInFraction(d, source, e)
  {
    ReadsExactly(source, 0, e, v);
    forall d | Fits(d, source, 0, e, v)
      ensures EndsBare(source, Done(v, e)) <==> EndsInFraction(d, source, e)
    {
      EndsBareExact(d, source, e, v);
    }
  }

  /** White space and then this word. */
  ghost predicate WordComes(text: string, pos: nat, w: string) {
    exists gap :: White(gap) && At(text, pos, gap + w)
  }

  ghost predicate Gives(text: string, pos: nat, v: Json)
    requires pos <= |text|
  {
    ReadValue(text, pos).Done? && ReadValue(text, pos).value == v
  }

  /** `true`, `false` and `null` are read from their words and from nothing else. */
  lemma WordsExact(text: string, pos: nat)
    requires pos <= |text|
    ensures Gives(text, pos, Bool(true)) <==> WordComes(text, pos, "true")
    ensures Gives(text, pos, Bool(false)) <==> WordComes(text, pos, "false")
    ensures Gives(text, pos, Nil) <==> WordComes(text, pos, "null")
  {
    WordExact(text, pos, True);
    WordExact(text, pos, False);
    WordExact(text, pos, Null);
  }

  lemma WordExact(text: string, pos: nat, t: Token)
    requires pos <= |text| && (t.True? || t.False? || t.Null?)
    ensures Gives(text, pos, TokenValue(t)) <==> WordComes(text, pos, Spelling(t))
  {
    if Gives(text, pos, TokenValue(t)) {
      var d := DocFound(text, pos);
      assert d == Atom(d.gap, t);
      assert Text(d) == d.gap + Spelling(t);
      assert White(d.gap) && At(text, pos, d.gap + Spelling(t));
    }
    if WordComes(text, pos, Spelling(t)) {
      var gap :| White(gap) && At(text, pos, gap + Spelling(t));
      DocIsRead(text, pos, Atom(gap, t));
    }
  }

  // ----- white space

  function Later(r: Read<Json>, n: nat): Read<Json> {
    if r.Failed? then Failed else Done(r.value, r.next + n)
  }

  lemma AtLater(w: string, text: string, pos: nat, s: string)
    ensures At(w + text, |w| + pos, s) <==> At(text, pos, s)
  {
    var all := w + text;
    if At(text, pos, s) {
      forall k | 0 <= k < |s|
        ensures all[|w| + pos + k] == s[k]
      {
        AtIndex(text, pos, s, k);
      }
      IndicesAlike(all, |w| + pos, s, 0);
    }
    if At(all, |w| + pos, s) {
      forall k | 0 <= k < |s|
        ensures text[pos + k] == s[k]
      {
        AtIndex(all, |w| + pos, s, k);
      }
      IndicesAlike(text, pos, s, 0);
    }
  }

  lemma EndsLater(d: Doc, w: string, text: string, e: nat)
    ensures Ends(d, w + text, |w| + e) <==> Ends(d, text, e)
  {
    assert e < |text| ==> (w + text)[|w| + e] == text[e];
  }

  /** White space in front makes no difference: every text, whether it can be read or not, is read behind
      any white space as it is without. */
  lemma WhiteSpaceInFront(w: string, text: string)
    requires White(w)
    ensures ReadValue(w + text, 0) == Later(ReadValue(text, 0), |w|)
  {
    if ReadValue(w + text, 0).Done? {
      ReadWithout(w, text);
    }
    if ReadValue(text, 0).Done? {
      ReadWith(w, text);
    }
  }

  lemma ReadWith(w: string, text: string)
    requires White(w) && ReadValue(text, 0).Done?
    ensures ReadValue(w + text, 0) == Later(ReadValue(text, 0), |w|)
  {
    var d := DocFound(text, 0);
    Indented(w, text, d);
  }

  lemma ReadWithout(w: string, text: string)
    requires White(w) && ReadValue(w + text, 0).Done?
    ensures ReadValue(text, 0).Done?
  {
    var d := DocFound(w + text, 0);
    var k := GapCovers(w, text, d);
    Dedented(w, text, d, text[..k]);
  }

  /** A document with other white space before it. */
  lemma ReadBehind(text: string, gap: string, d: Doc)
    requires WellFormed(d) && White(gap) && At(text, 0, gap + Bare(d)) && Ends(d, text, |gap| + |Bare(d)|)
    ensures ReadValue(text, 0) == Done(Meaning(d), |gap| + |Bare(d)|)
  {
    BareStarts(d);
    AtParts(text, 0, gap, Bare(d));
    AtIndex(text, |gap|, Bare(d), 0);
    GapSkipped(text, 0, gap, 0);
    BareIsRead(text, |gap|, d);
  }

  lemma AtBehind(w: string, text: string, a: string)
    ensures At(w + text, 0, w + a) <==> At(text, 0, a)
  {
    AtLater(w, text, 0, a);
    IndicesAlike(w + text, 0, w, 0);
    if At(text, 0, a) {
      AtJoined(w + text, 0, w, a);
    }
    if At(w + text, 0, w + a) {
      AtParts(w + text, 0, w, a);
    }
  }

  lemma Indented(w: string, text: string, d: Doc)
    requires White(w) && WellFormed(d) && At(text, 0, Text(d)) && Ends(d, text, |Text(d)|)
    ensures ReadValue(w + text, 0) == Done(Meaning(d), |Text(d)| + |w|)
  {
    Reassociated(w, d.gap, Bare(d));
    AtBehind(w, text, Text(d));
    EndsLater(d, w, text, |Text(d)|);
    ReadBehind(w + text, w + d.gap, d);
  }

  lemma Reassociated(a: string, b: string, c: string)
    ensures (a + b) + c == a + (b + c)
  {
  }

  lemma WhiteInFront(w: string, text: string, i: nat)
    requires White(w) && i < |w + text|
    ensures i < |w| ==> IsWhite((w + text)[i])
  {
  }

  lemma GapCovers(w: string, text: string, d: Doc) returns (k: nat)
    requires White(w) && WellFormed(d) && At(w + text, 0, Text(d))
    ensures k <= |text| && d.gap == w + text[..k]
  {
    var all := w + text;
    BareStarts(d);
    AtParts(all, 0, d.gap, Bare(d));
    AtIndex(all, |d.gap|, Bare(d), 0);
    WhiteInFront(w, text, |d.gap|);
    k := |d.gap| - |w|;
    AtSlice(all, 0, d.gap);
  }

  lemma WhiteBehind(w: string, gap: string)
    requires White(w + gap)
    ensures White(gap)
  {
    forall i | 0 <= i < |gap|
      ensures IsWhite(gap[i])
    {
      assert (w + gap)[|w| + i] == gap[i];
    }
  }

  lemma Dedented(w: string, text: string, d: Doc, gap: string)
    requires WellFormed(d) && At(w + text, 0, Text(d)) && Ends(d, w + text, |Text(d)|) && d.gap == w + gap
    ensures ReadValue(text, 0).Done?
  {
    WhiteBehind(w, gap);
    Reassociated(w, gap, Bare(d));
    AtBehind(w, text, gap + Bare(d));
    EndsLater(d, w, text, |gap| + |Bare(d)|);
    ReadBehind(text, gap, d);
  }

  /** The document with all its white space taken out. */
  function Stripped(d: Doc): Doc
    decreases d
  {
    match d
    case Atom(_, token) => Atom("", token)
    case NoItems(_, _) => NoItems("", "")
    case Items(_, first, rest) => Items("", Stripped(first), StrippedItems(rest))
    case NoMembers(_, _) => NoMembers("", "")
    case Members(_, entry, others) => Members("", StrippedEntry(entry), StrippedMembers(others))
  }

  function StrippedItems(t: ItemTail): ItemTail
    decreases t
  {
    match t
    case EndItems(_) => EndItems("")
    case NextItem(_, item, rest) => NextItem("", Stripped(item), StrippedItems(rest))
  }

  function StrippedEntry(e: Entry): Entry
    decreases e
  {
    Entry("", e.key, "", Stripped(e.value))
  }

  function StrippedMembers(t: EntryTail): EntryTail
    decreases t
  {
    match t
    case EndMembers(_) => EndMembers("")
    case NextMember(_, entry, rest) => NextMember("", StrippedEntry(entry), StrippedMembers(rest))
  }

  lemma {:induction false} StrippedSame(d: Doc)
    ensures Meaning(Stripped(d)) == Meaning(d) && (WellFormed(d) ==> WellFormed(Stripped(d)))
    decreases d
  {
    match d
    case Items(_, first, rest) =>
      StrippedSame(first);
      StrippedItemsSame(rest);
    case Members(_, entry, others) =>
      StrippedEntrySame(entry);
      StrippedMembersSame(others);
    case _ =>
  }

  lemma {:induction false} StrippedItemsSame(t: ItemTail)
    ensures ItemValues(StrippedItems(t)) == ItemValues(t) && (ItemsFormed(t) ==> ItemsFormed(StrippedItems(t)))
    decreases t
  {
    if t.NextItem? {
      StrippedSame(t.item);
      StrippedItemsSame(t.rest);
    }
  }

  lemma {:induction false} StrippedEntrySame(e: Entry)
    ensures EntryMember(StrippedEntry(e)) == EntryMember(e) && (EntryFormed(e) ==> EntryFormed(StrippedEntry(e)))
    decreases e
  {
    StrippedSame(e.value);
  }

  lemma {:induction false} StrippedMembersSame(t: EntryTail)
    ensures MemberList(StrippedMembers(t)) == MemberList(t)
    ensures MembersFormed(t) ==> MembersFormed(StrippedMembers(t))
    decreases t
  {
    if t.NextMember? {
      StrippedEntrySame(t.entry);
      StrippedMembersSame(t.rest);
    }
  }

  /** White space between the tokens, around brackets, commas and colons, makes no difference: a document
      is read as the same document without any. */
  lemma WhiteSpaceIgnored(d: Doc)
    requires WellFormed(d)
    ensures ReadValue(Text(d), 0) == Done(Meaning(d), |Text(d)|)
    ensures ReadValue(Text(Stripped(d)), 0) == Done(Meaning(d), |Text(Stripped(d))|)
  {
    WholeDocRead(d);
    StrippedSame(d);
    WholeDocRead(Stripped(d));
  }

  lemma WholeDocRead(d: Doc)
    requires WellFormed(d)
    ensures ReadValue(Text(d), 0) == Done(Meaning(d), |Text(d)|)
  {
    IndicesAlike(Text(d), 0, Text(d), 0);
    DocIsRead(Text(d), 0, d);
  }

  // --------------------------------------------------------------------------- printing

  /** The document without white space that `operator<<` writes. */
  ghost function Written(v: Json): Doc
    requires NoReals(v)
    decreases v, 1, 0
  {
    match v
    case Nil => Atom("", Null)
    case Bool(b) => Atom("", if b then True else False)
    case Int(n) => Atom("", WrittenInt(n))
    case Str(s) => Atom("", Quote(s))
    case Arr(items) => if items == [] then NoItems("", "") else Items("", Written(items[0]), WrittenItems(v, 1))
    case Obj(members) =>
      if members == [] then NoMembers("", "") else Members("", WrittenEntry(v, 0), WrittenMembers(v, 1))
  }

  ghost function WrittenInt(n: int): Token {
    var s := Decimal(if n < 0 then -n else n);
    if n < 0 then Whole('-', s) else Whole(s[0], s[1..])
  }

  ghost function WrittenItems(v: Json, i: nat): ItemTail
    requires v.Arr? && i <= |v.items| && NoReals(v)
    decreases v, 0, |v.items| - i
  {
    if i == |v.items| then EndItems("") else NextItem("", Written(v.items[i]), WrittenItems(v, i + 1))
  }

  ghost function WrittenEntry(v: Json, i: nat): Entry
    requires v.Obj? && i < |v.members| && NoReals(v)
    decreases v, 0, 0
  {
    Entry("", v.members[i].key, "", Written(v.members[i].value))
  }

  ghost function WrittenMembers(v: Json, i: nat): EntryTail
    requires v.Obj? && i <= |v.members| && NoReals(v)
    decreases v, 0, |v.members| - i + 1
  {
    if i == |v.members| then EndMembers("") else NextMember("", WrittenEntry(v, i), WrittenMembers(v, i + 1))
  }

  lemma Gapless(s: string)
    ensures "" + s == s
  {
  }

  lemma WrittenIntText(n: int)
    ensures Spelling(WrittenInt(n)) == PrintInt(n)
  {
    var s := Decimal(if n < 0 then -n else n);
    assert [s[0]] + s[1..] == s;
  }

  lemma {:induction false} WrittenText(v: Json)
    requires NoReals(v)
    ensures Text(Written(v)) == Print(v)
    decreases v, 1, 0
  {
    Gapless(Bare(Written(v)));
    match v
    case Int(n) => WrittenIntText(n);
    case Arr(items) =>
      if items == [] {
        Gapless("]");
      } else {
        WrittenText(items[0]);
        WrittenItemsText(v, 1);
      }
    case Obj(members) =>
      if members == [] {
        Gapless("}");
      } else {
        WrittenEntryText(v, 0);
        WrittenMembersText(v, 1);
        EntryPrinted(Quoted(members[0].key), Print(members[0].value), MembersTail(v, 0));
      }
    case _ =>
  }

  lemma {:induction false} WrittenItemsText(v: Json, i: nat)
    requires v.Arr? && i <= |v.items| && NoReals(v)
    ensures ItemsText(WrittenItems(v, i)) == if i == |v.items| then "]" else "," + PrintItems(v, i)
    decreases v, 0, |v.items| - i
  {
    if i < |v.items| {
      WrittenText(v.items[i]);
      WrittenItemsText(v, i + 1);
      Gapless("," + PrintItems(v, i));
    } else {
      Gapless("]");
    }
  }

  lemma {:induction false} WrittenEntryText(v: Json, i: nat)
    requires v.Obj? && i < |v.members| && NoReals(v)
    ensures EntryText(WrittenEntry(v, i)) == Quoted(v.members[i].key) + (":" + Print(v.members[i].value))
    decreases v, 0, 0
  {
    WrittenText(v.members[i].value);
    Gapless(":" + Print(v.members[i].value));
    Gapless(Quoted(v.members[i].key) + (":" + Print(v.members[i].value)));
  }

  lemma {:induction false} WrittenMembersText(v: Json, i: nat)
    requires v.Obj? && i <= |v.members| && NoReals(v)
    ensures MembersText(WrittenMembers(v, i)) == if i == |v.members| then "}" else "," + PrintMembers(v, i)
    decreases v, 0, |v.members| - i + 1
  {
    if i < |v.members| {
      WrittenEntryText(v, i);
      WrittenMembersText(v, i + 1);
      EntryPrinted(Quoted(v.members[i].key), Print(v.members[i].value), MembersTail(v, i));
      Gapless("," + PrintMembers(v, i));
    } else {
      Gapless("}");
    }
  }

  lemma EntryPrinted(key: string, value: string, tail: string)
    ensures key + (":" + value) + tail == key + (":" + (value + tail))
  {
  }

  lemma {:induction false} WrittenFormed(v: Json)
    requires NoReals(v) && Normal(v)
    ensures WellFormed(Written(v)) && Stripped(Written(v)) == Written(v)
    decreases v, 1, 0
  {
    match v
    case Int(n) => WrittenIntFormed(n);
    case Arr(items) =>
      if items != [] {
        WrittenFormed(items[0]);
        WrittenItemsFormed(v, 1);
      }
    case Obj(members) =>
      if members != [] {
        WrittenEntryFormed(v, 0);
        WrittenMembersFormed(v, 1);
      }
    case _ =>
  }

  lemma WrittenIntFormed(n: int)
    ensures TokenOk(WrittenInt(n))
  {
    DecimalIsValue(if n < 0 then -n else n);
  }

  lemma {:induction false} WrittenItemsFormed(v: Json, i: nat)
    requires v.Arr? && i <= |v.items| && NoReals(v) && Normal(v)
    ensures ItemsFormed(WrittenItems(v, i)) && StrippedItems(WrittenItems(v, i)) == WrittenItems(v, i)
    decreases v, 0, |v.items| - i
  {
    if i < |v.items| {
      WrittenFormed(v.items[i]);
      WrittenItemsFormed(v, i + 1);
    }
  }

  lemma {:induction false} WrittenEntryFormed(v: Json, i: nat)
    requires v.Obj? && i < |v.members| && NoReals(v) && Normal(v)
    ensures EntryFormed(WrittenEntry(v, i)) && StrippedEntry(WrittenEntry(v, i)) == WrittenEntry(v, i)
    decreases v, 0, 0
  {
    assert NormalMember(v.members[i]);
    WrittenFormed(v.members[i].value);
  }

  lemma {:induction false} WrittenMembersFormed(v: Json, i: nat)
    requires v.Obj? && i <= |v.members| && NoReals(v) && Normal(v)
    ensures MembersFormed(WrittenMembers(v, i)) && StrippedMembers(WrittenMembers(v, i)) == WrittenMembers(v, i)
    decreases v, 0, |v.members| - i + 1
  {
    if i < |v.members| {
      WrittenEntryFormed(v, i);
      WrittenMembersFormed(v, i + 1);
    }
  }

  /** What is printed is a document of the grammar without any white space, and means the value. */
  lemma PrintsADocument(v: Json)
    requires NoReals(v) && Normal(v)
    ensures Text(Written(v)) == Print(v) && WellFormed(Written(v)) && Stripped(Written(v)) == Written(v)
    ensures Meaning(Written(v)) == v
  {
    WrittenText(v);
    WrittenFormed(v);
    WholeDocRead(Written(v));
    FromToString(v);
  }
}
