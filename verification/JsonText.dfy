/** JSON values: their printed form, what the reader makes of a text, and why reading undoes printing.
    A `char` stands for one byte of a stream. */
module JsonText {
  /** `JsonValue`. An object is a `std::map`: its members in ascending order of their keys. Strings
      are kept in escaped form. A real is kept as the text it was read from. */
  datatype Json =
    | Nil
    | Bool(b: bool)
    | Int(n: int)
    | Real(digits: string)
    | Str(s: string)
    | Arr(items: seq<Json>)
    | Obj(members: seq<Member>)

  datatype Member = Member(key: string, value: Json)

  const INT64_MIN: int := -0x8000_0000_0000_0000
  const INT64_MAX: int := 0x7FFF_FFFF_FFFF_FFFF

  // ------------------------------------------------------------------------ key order

  /** `std::string` order: `a < b`, both alike before `i`. */
  predicate LessFrom(a: string, b: string, i: nat)
    requires i <= |a| && i <= |b|
    decreases |a| - i
  {
    if i == |b| then false
    else if i == |a| then true
    else if a[i] != b[i] then a[i] < b[i]
    else LessFrom(a, b, i + 1)
  }

  predicate Less(a: string, b: string) {
    LessFrom(a, b, 0)
  }

  /** `a` and `b` differ first at `k`, where `a` is smaller or ends. */
  ghost predicate Differ(a: string, b: string, k: nat) {
    && k <= |a| && k < |b| && (k < |a| ==> a[k] < b[k])
    && forall i :: 0 <= i < k ==> a[i] == b[i]
  }

  lemma {:induction false} LessDiffers(a: string, b: string, i: nat) returns (k: nat)
    requires i <= |a| && i <= |b| && LessFrom(a, b, i) && forall j :: 0 <= j < i ==> a[j] == b[j]
    ensures Differ(a, b, k)
    decreases |a| - i
  {
    if i < |a| && a[i] == b[i] {
      k := LessDiffers(a, b, i + 1);
    } else {
      k := i;
    }
  }

  lemma {:induction false} DifferLess(a: string, b: string, i: nat, k: nat)
    requires Differ(a, b, k) && i <= k
    ensures LessFrom(a, b, i)
    decreases k - i
  {
    if i < k {
      DifferLess(a, b, i + 1, k);
    }
  }

  lemma LessTransitive(a: string, b: string, c: string)
    requires Less(a, b) && Less(b, c)
    ensures Less(a, c)
  {
    var k := LessDiffers(a, b, 0);
    var l := LessDiffers(b, c, 0);
    DifferLess(a, c, 0, if k < l then k else l);
  }

  lemma LessNotEqual(a: string, b: string)
    requires Less(a, b)
    ensures a != b
  {
    var k := LessDiffers(a, b, 0);
  }

  lemma {:induction false} LessTotal(a: string, b: string, i: nat)
    requires i <= |a| && i <= |b| && forall j :: 0 <= j < i ==> a[j] == b[j]
    ensures a == b || LessFrom(a, b, i) || LessFrom(b, a, i)
    decreases |a| - i
  {
    if i < |a| && i < |b| && a[i] == b[i] {
      LessTotal(a, b, i + 1);
    }
  }

  // --------------------------------------------------------------------------- objects

  ghost predicate Ascending(members: seq<Member>) {
    forall i, j :: 0 <= i < j < |members| ==> Less(members[i].key, members[j].key)
  }

  /** `value[name] = v` on a `std::map`. */
  function Insert(members: seq<Member>, key: string, value: Json): seq<Member> {
    if members == [] then [Member(key, value)]
    else
      var last := members[|members| - 1];
      if Less(last.key, key) then members + [Member(key, value)]
      else if last.key == key then members[..|members| - 1] + [Member(key, value)]
      else Insert(members[..|members| - 1], key, value) + [last]
  }

  /** The map an object stands for. */
  function MapOf(members: seq<Member>): map<string, Json> {
    if members == [] then map[]
    else MapOf(members[..|members| - 1])[members[|members| - 1].key := members[|members| - 1].value]
  }

  ghost predicate Below(members: seq<Member>, key: string) {
    forall i :: 0 <= i < |members| ==> Less(members[i].key, key)
  }

  lemma {:induction false} InsertBelow(members: seq<Member>, key: string, value: Json, bound: string)
    requires Below(members, bound) && Less(key, bound)
    ensures Below(Insert(members, key, value), bound)
  {
    if members != [] {
      InsertBelow(members[..|members| - 1], key, value, bound);
    }
  }

  /** Insertion keeps the order. */
  lemma {:induction false} InsertAscends(members: seq<Member>, key: string, value: Json)
    requires Ascending(members)
    ensures Ascending(Insert(members, key, value))
  {
    if members != [] {
      var front, last := members[..|members| - 1], members[|members| - 1];
      if Less(last.key, key) {
        AllBelow(members, key);
      } else if last.key != key {
        LessTotal(last.key, key, 0);
        InsertAscends(front, key, value);
        InsertBelow(front, key, value, last.key);
      }
    }
  }

  lemma AllBelow(members: seq<Member>, key: string)
    requires members != [] && Ascending(members) && Less(members[|members| - 1].key, key)
    ensures Below(members, key)
  {
    forall i | 0 <= i < |members| - 1
      ensures Less(members[i].key, key)
    {
      LessTransitive(members[i].key, members[|members| - 1].key, key);
    }
  }

  lemma MapOfMore(members: seq<Member>, m: Member)
    ensures MapOf(members + [m]) == MapOf(members)[m.key := m.value]
  {
    assert (members + [m])[..|members|] == members;
  }

  lemma UpdatesCommute(m: map<string, Json>, a: Member, b: Member)
    requires a.key != b.key
    ensures m[a.key := a.value][b.key := b.value] == m[b.key := b.value][a.key := a.value]
  {
  }

  /** Insertion updates the map. */
  lemma {:induction false} InsertUpdates(members: seq<Member>, key: string, value: Json)
    ensures MapOf(Insert(members, key, value)) == MapOf(members)[key := value]
  {
    var m := Member(key, value);
    if members == [] {
      MapOfMore([], m);
    } else {
      var front, last := members[..|members| - 1], members[|members| - 1];
      if Less(last.key, key) {
        MapOfMore(members, m);
      } else if last.key == key {
        MapOfMore(front, m);
      } else {
        InsertUpdates(front, key, value);
        MapOfMore(Insert(front, key, value), last);
        UpdatesCommute(MapOf(front), last, m);
      }
    }
  }

  lemma {:induction false} KeysAreBelow(members: seq<Member>, key: string)
    requires Below(members, key)
    ensures key !in MapOf(members)
    ensures forall k :: k in MapOf(members) ==> Less(k, key)
  {
    if members != [] {
      KeysAreBelow(members[..|members| - 1], key);
      LessNotEqual(members[|members| - 1].key, key);
    }
  }

  lemma LastIsKey(members: seq<Member>)
    requires members != []
    ensures MapOf(members) != map[]
  {
    assert members[|members| - 1].key in MapOf(members);
  }

  /** A map has one ascending list of members. */
  lemma {:induction false} MembersUnique(a: seq<Member>, b: seq<Member>)
    requires Ascending(a) && Ascending(b) && MapOf(a) == MapOf(b)
    ensures a == b
  {
    if a == [] {
      if b != [] { LastIsKey(b); }
    } else if b == [] {
      LastIsKey(a);
    } else {
      var c, d := a[|a| - 1], b[|b| - 1];
      KeysAreBelow(a[..|a| - 1], c.key);
      KeysAreBelow(b[..|b| - 1], d.key);
      assert c.key in MapOf(b) && d.key in MapOf(a);
      if c.key != d.key {
        assert Less(c.key, d.key) && Less(d.key, c.key);
        LessTransitive(c.key, d.key, c.key);
        LessNotEqual(c.key, c.key);
      }
      assert c == d;
      assert MapOf(a[..|a| - 1]) == MapOf(a) - {c.key};
      assert MapOf(b[..|b| - 1]) == MapOf(b) - {c.key};
      MembersUnique(a[..|a| - 1], b[..|b| - 1]);
    }
  }

  // -------------------------------------------------------------------------- printing

  ghost predicate NoReals(v: Json) {
    match v
    case Real(_) => false
    case Arr(items) => forall i :: 0 <= i < |items| ==> NoReals(items[i])
    case Obj(members) => forall i :: 0 <= i < |members| ==> NoReals(members[i].value)
    case _ => true
  }

  function Digit(d: nat): char
    requires d < 10
  {
    '0' + d as char
  }

  predicate IsDigit(c: char) {
    '0' <= c <= '9'
  }

  function DigitValue(c: char): nat {
    if IsDigit(c) then c as nat - '0' as nat else 0
  }

  /** Decimal notation. */
  function Decimal(n: nat): (s: string)
    ensures s != []
  {
    if n < 10 then [Digit(n)] else Decimal(n / 10) + [Digit(n % 10)]
  }

  function PrintInt(n: int): string {
    if n < 0 then "-" + Decimal(-n) else Decimal(n)
  }

  function Quoted(s: string): string {
    "\"" + (s + "\"")
  }

  /** What `operator<<` writes. */
  function Print(v: Json): string
    requires NoReals(v)
    decreases v, 1, 0
  {
    match v
    case Nil => "null"
    case Bool(b) => if b then "true" else "false"
    case Int(n) => PrintInt(n)
    case Str(s) => Quoted(s)
    case Arr(items) => "[" + if items == [] then "]" else PrintItems(v, 0)
    case Obj(members) => "{" + if members == [] then "}" else PrintMembers(v, 0)
  }

  /** The items from number `i` on and the closing bracket. */
  function PrintItems(v: Json, i: nat): string
    requires v.Arr? && i < |v.items| && NoReals(v)
    decreases v, 0, |v.items| - i
  {
    Print(v.items[i]) + if i + 1 == |v.items| then "]" else "," + PrintItems(v, i + 1)
  }

  function PrintMembers(v: Json, i: nat): string
    requires v.Obj? && i < |v.members| && NoReals(v)
    decreases v, 0, |v.members| - i
  {
    Quoted(v.members[i].key) + (":" + (Print(v.members[i].value) +
      if i + 1 == |v.members| then "}" else "," + PrintMembers(v, i + 1)))
  }

  // --------------------------------------------------------------------------- reading

  /** What a reader returns: nothing when it throws, or a value and the position after it. */
  datatype Read<T> = Failed | Done(value: T, next: nat)

  predicate IsSpace(c: char) {
    c == ' ' || '\t' <= c <= '\r'
  }

  /** The next character that is not white space, or the end. */
  function SkipSpace(text: string, pos: nat): (p: nat)
    requires pos <= |text|
    ensures pos <= p <= |text| && (p < |text| ==> !IsSpace(text[p]))
    decreases |text| - pos
  {
    if pos < |text| && IsSpace(text[pos]) then SkipSpace(text, pos + 1) else pos
  }

  /** The closing quote of a string that goes on at `pos`; the end of the text when there is none. */
  function ClosingQuote(text: string, pos: nat): (e: nat)
    requires pos <= |text|
    ensures pos <= e <= |text| && (e < |text| ==> text[e] == '"')
    decreases |text| - pos
  {
    if pos == |text| || text[pos] == '"' then pos
    else if text[pos] != '\\' then ClosingQuote(text, pos + 1)
    else if pos + 2 <= |text| then ClosingQuote(text, pos + 2)
    else |text|
  }

  function ReadToken(text: string, pos: nat): Read<string>
    requires pos <= |text|
  {
    var e := ClosingQuote(text, pos);
    if e == |text| then Failed else Done(text[pos..e], e + 1)
  }

  /** The end of the digits that go on at `pos`. */
  function Digits(text: string, pos: nat): (e: nat)
    requires pos <= |text|
    ensures pos <= e <= |text|
    decreases |text| - pos
  {
    if pos < |text| && IsDigit(text[pos]) then Digits(text, pos + 1) else pos
  }

  /** The number the digits from `pos` to `e` stand for. */
  function DecimalAt(text: string, pos: nat, e: nat): (n: int)
    requires pos <= e <= |text|
    ensures n >= 0
  {
    if pos == e then 0 else DecimalAt(text, pos, e - 1) * 10 + DigitValue(text[e - 1])
  }

  /** What `>>` makes of an integer numeral: out of range is the nearest `int64_t`, a lone sign is 0. */
  function IntAt(text: string, pos: nat, e: nat): (n: int)
    requires pos < e <= |text|
    ensures INT64_MIN <= n <= INT64_MAX
  {
    var n := if text[pos] == '-' then 0 - DecimalAt(text, pos + 1, e) else DecimalAt(text, pos, e);
    if n < INT64_MIN then INT64_MIN else if n > INT64_MAX then INT64_MAX else n
  }

  predicate StartsNumber(c: char) {
    c == '-' || IsDigit(c)
  }

  /** A numeral from `pos` on; a second dot, an empty exponent and leading zeros are refused. */
  function ReadNumber(text: string, pos: nat): Read<Json>
    requires pos < |text|
  {
    var e := Digits(text, pos + 1);
    if e < |text| && text[e] == '.' then ReadReal(text, pos, Digits(text, e + 1))
    else if LeadingZero(text, pos, e) then Failed
    else Done(Int(IntAt(text, pos, e)), e)
  }

  predicate LeadingZero(text: string, pos: nat, e: nat)
    requires pos < e <= |text|
  {
    e > pos + 1 && (text[pos] == '0' || (text[pos] == '-' && text[pos + 1] == '0'))
  }

  function ReadReal(text: string, pos: nat, f: nat): Read<Json>
    requires pos <= f <= |text|
  {
    if f == |text| || (text[f] != '.' && text[f] != 'e') then Done(Real(text[pos..f]), f)
    else if text[f] == '.' then Failed
    else
      var g := if f + 1 < |text| && (text[f + 1] == '+' || text[f + 1] == '-') then f + 2 else f + 1;
      if g == |text| || !IsDigit(text[g]) then Failed else Done(Real(text[pos..Digits(text, g)]), Digits(text, g))
  }

  function ReadTrue(text: string, pos: nat): Read<Json> {
    if pos + 3 <= |text| && text[pos] == 'r' && text[pos + 1] == 'u' && text[pos + 2] == 'e'
    then Done(Bool(true), pos + 3) else Failed
  }

  function ReadFalse(text: string, pos: nat): Read<Json> {
    if pos + 4 <= |text| && text[pos] == 'a' && text[pos + 1] == 'l' && text[pos + 2] == 's' && text[pos + 3] == 'e'
    then Done(Bool(false), pos + 4) else Failed
  }

  function ReadNull(text: string, pos: nat): Read<Json> {
    if pos + 3 <= |text| && text[pos] == 'u' && text[pos + 1] == 'l' && text[pos + 2] == 'l'
    then Done(Nil, pos + 3) else Failed
  }

  /** `operator>>`: white space, then a value. */
  function ReadValue(text: string, pos: nat): (r: Read<Json>)
    requires pos <= |text|
    ensures r.Done? ==> pos < r.next <= |text|
    decreases |text| - pos, 1
  {
    var p := SkipSpace(text, pos);
    if p == |text| then Failed else ReadAt(text, p)
  }

  /** The first character decides. */
  function ReadAt(text: string, pos: nat): (r: Read<Json>)
    requires pos < |text|
    ensures r.Done? ==> pos < r.next <= |text|
    decreases |text| - pos, 0
  {
    if text[pos] == '[' then ReadArray(text, pos + 1)
    else if text[pos] == '{' then ReadObject(text, pos + 1)
    else ReadScalar(text, pos)
  }

  function ReadScalar(text: string, pos: nat): (r: Read<Json>)
    requires pos < |text|
    ensures r.Done? ==> pos < r.next <= |text|
  {
    if text[pos] == 't' then ReadTrue(text, pos + 1)
    else if text[pos] == 'f' then ReadFalse(text, pos + 1)
    else if StartsNumber(text[pos]) then ReadNumber(text, pos)
    else if text[pos] == 'n' then ReadNull(text, pos + 1)
    else if text[pos] == '"' then ReadString(text, pos + 1)
    else Failed
  }

  function ReadString(text: string, pos: nat): (r: Read<Json>)
    requires pos <= |text|
    ensures r.Done? ==> pos < r.next <= |text|
  {
    var t := ReadToken(text, pos);
    if t.Failed? then Failed else Done(Str(t.value), t.next)
  }

  function ReadArray(text: string, pos: nat): (r: Read<Json>)
    requires pos <= |text|
    ensures r.Done? ==> pos < r.next <= |text|
    decreases |text| - pos, 3
  {
    var p := SkipSpace(text, pos);
    if p == |text| then Failed
    else if text[p] == ']' then Done(Arr([]), p + 1)
    else ReadItems(text, p, [])
  }

  /** The comma after an item, or the closing bracket: whether there is more. */
  function ReadSeparator(text: string, pos: nat, close: char): (r: Read<bool>)
    requires pos <= |text|
    ensures r.Done? ==> pos < r.next <= |text|
  {
    var p := SkipSpace(text, pos);
    if p == |text| || (text[p] != close && text[p] != ',') then Failed else Done(text[p] != close, p + 1)
  }

  /** The rest of an array whose items so far are `items`. */
  function ReadItems(text: string, pos: nat, items: seq<Json>): (r: Read<Json>)
    requires pos <= |text|
    ensures r.Done? ==> pos < r.next <= |text|
    decreases |text| - pos, 2
  {
    var v := ReadValue(text, pos);
    if v.Failed? then Failed
    else
      var more := ReadSeparator(text, v.next, ']');
      if more.Failed? then Failed
      else if more.value then ReadItems(text, more.next, items + [v.value])
      else Done(Arr(items + [v.value]), more.next)
  }

  function ReadObject(text: string, pos: nat): (r: Read<Json>)
    requires pos <= |text|
    ensures r.Done? ==> pos < r.next <= |text|
    decreases |text| - pos, 3
  {
    var p := SkipSpace(text, pos);
    if p == |text| then Failed
    else if text[p] == '}' then Done(Obj([]), p + 1)
    else ReadMembers(text, p, [])
  }

  /** A key, a colon and a value. */
  function ReadMember(text: string, pos: nat): (r: Read<Member>)
    requires pos < |text|
    ensures r.Done? ==> pos < r.next <= |text|
    decreases |text| - pos, 0
  {
    if text[pos] != '"' then Failed
    else
      var name := ReadToken(text, pos + 1);
      if name.Failed? then Failed
      else
        var p := SkipSpace(text, name.next);
        if p == |text| || text[p] != ':' then Failed
        else
          var v := ReadValue(text, p + 1);
          if v.Failed? then Failed else Done(Member(name.value, v.value), v.next)
  }

  /** The rest of an object whose members so far are `members`. */
  function ReadMembers(text: string, pos: nat, members: seq<Member>): (r: Read<Json>)
    requires pos < |text|
    ensures r.Done? ==> pos < r.next <= |text|
    decreases |text| - pos, 2
  {
    var m := ReadMember(text, pos);
    if m.Failed? then Failed
    else
      var all := Insert(members, m.value.key, m.value.value);
      var more := ReadSeparator(text, m.next, '}');
      if more.Failed? then Failed
      else if !more.value then Done(Obj(all), more.next)
      else
        var p := SkipSpace(text, more.next);
        if p == |text| then Failed else ReadMembers(text, p, all)
  }

  // ------------------------------------------------------------------- normal values

  /** Well escaped from `i` on: quotes only behind a backslash, and no backslash left over. */
  predicate EscapedFrom(s: string, i: nat)
    requires i <= |s|
    decreases |s| - i
  {
    if i == |s| then true
    else if s[i] == '\\' then i + 2 <= |s| && EscapedFrom(s, i + 2)
    else s[i] != '"' && EscapedFrom(s, i + 1)
  }

  predicate WellEscaped(s: string) {
    EscapedFrom(s, 0)
  }

  /** Values the reader can produce. */
  ghost predicate Normal(v: Json) {
    match v
    case Int(n) => INT64_MIN <= n <= INT64_MAX
    case Str(s) => WellEscaped(s)
    case Arr(items) => forall i :: 0 <= i < |items| ==> Normal(items[i])
    case Obj(members) => Ascending(members) && forall i :: 0 <= i < |members| ==> NormalMember(members[i])
    case _ => true
  }

  ghost predicate NormalMember(m: Member) {
    WellEscaped(m.key) && Normal(m.value)
  }

  // ------------------------------------------------------------------------ round trip

  /** `w` stands in the text at `pos`. */
  ghost predicate At(text: string, pos: nat, w: string) {
    pos + |w| <= |text| && Alike(text, pos, w, 0)
  }

  ghost predicate Alike(text: string, pos: nat, w: string, i: nat)
    requires pos + |w| <= |text|
    decreases |w| - i
  {
    i < |w| ==> text[pos + i] == w[i] && Alike(text, pos, w, i + 1)
  }

  lemma {:induction false} AlikeIndex(text: string, pos: nat, w: string, i: nat, k: nat)
    requires pos + |w| <= |text| && Alike(text, pos, w, i) && i <= k < |w|
    ensures text[pos + k] == w[k]
    decreases k - i
  {
    if i < k {
      AlikeIndex(text, pos, w, i + 1, k);
    }
  }

  lemma {:induction false} IndicesAlike(text: string, pos: nat, w: string, i: nat)
    requires pos + |w| <= |text| && forall k :: i <= k < |w| ==> text[pos + k] == w[k]
    ensures Alike(text, pos, w, i)
    decreases |w| - i
  {
    if i < |w| {
      IndicesAlike(text, pos, w, i + 1);
    }
  }

  lemma AtIndex(text: string, pos: nat, w: string, k: nat)
    requires At(text, pos, w) && k < |w|
    ensures text[pos + k] == w[k]
  {
    AlikeIndex(text, pos, w, 0, k);
  }

  lemma AtSlice(text: string, pos: nat, w: string)
    requires At(text, pos, w)
    ensures text[pos..pos + |w|] == w
  {
    forall k | 0 <= k < |w|
      ensures text[pos..pos + |w|][k] == w[k]
    {
      AtIndex(text, pos, w, k);
    }
  }

  lemma AtParts(text: string, pos: nat, a: string, b: string)
    requires At(text, pos, a + b)
    ensures At(text, pos, a) && At(text, pos + |a|, b)
  {
    forall k | 0 <= k < |a|
      ensures text[pos + k] == a[k]
    {
      AtIndex(text, pos, a + b, k);
    }
    IndicesAlike(text, pos, a, 0);
    forall k | 0 <= k < |b|
      ensures text[pos + |a| + k] == b[k]
    {
      AtIndex(text, pos, a + b, |a| + k);
    }
    IndicesAlike(text, pos + |a|, b, 0);
  }

  lemma AtFirst(text: string, pos: nat, c: char, rest: string)
    requires At(text, pos, [c] + rest)
    ensures text[pos] == c && At(text, pos + 1, rest)
  {
    AtParts(text, pos, [c], rest);
    AtIndex(text, pos, [c], 0);
  }

  lemma {:induction false} QuoteFound(text: string, pos: nat, s: string, i: nat)
    requires At(text, pos, s) && pos + |s| < |text| && text[pos + |s|] == '"' && i <= |s| && EscapedFrom(s, i)
    ensures ClosingQuote(text, pos + i) == pos + |s|
    decreases |s| - i
  {
    if i < |s| {
      AtIndex(text, pos, s, i);
      QuoteFound(text, pos, s, if s[i] == '\\' then i + 2 else i + 1);
    }
  }

  lemma TokenRead(text: string, pos: nat, s: string)
    requires At(text, pos, s + "\"") && WellEscaped(s)
    ensures ReadToken(text, pos) == Done(s, pos + |s| + 1)
  {
    AtParts(text, pos, s, "\"");
    assert "\"" == ['"'] + [];
    AtFirst(text, pos + |s|, '"', []);
    QuoteFound(text, pos, s, 0);
    AtSlice(text, pos, s);
  }

  lemma {:induction false} DigitsEnd(text: string, pos: nat, e: nat)
    requires pos <= e <= |text| && (forall i :: pos <= i < e ==> IsDigit(text[i])) && (e == |text| || !IsDigit(text[e]))
    ensures Digits(text, pos) == e
    decreases e - pos
  {
    if pos < e {
      DigitsEnd(text, pos + 1, e);
    }
  }

  lemma {:induction false} DecimalShifted(text: string, pos: nat, s: string, i: nat, j: nat)
    requires At(text, pos, s) && i <= j <= |s|
    ensures DecimalAt(text, pos + i, pos + j) == DecimalAt(s, i, j)
  {
    if i < j {
      DecimalShifted(text, pos, s, i, j - 1);
      AtIndex(text, pos, s, j - 1);
    }
  }

  ghost predicate AllDigits(s: string) {
    forall i :: 0 <= i < |s| ==> IsDigit(s[i])
  }

  lemma DecimalMore(s: string, d: nat)
    requires d < 10
    ensures DecimalAt(s + [Digit(d)], 0, |s| + 1) == DecimalAt(s, 0, |s|) * 10 + d
  {
    IndicesAlike(s + [Digit(d)], 0, s, 0);
    DecimalShifted(s + [Digit(d)], 0, s, 0, |s|);
  }

  lemma {:induction false} DecimalIsValue(n: nat)
    ensures AllDigits(Decimal(n)) && DecimalAt(Decimal(n), 0, |Decimal(n)|) == n
    ensures Decimal(n)[0] == '0' ==> n == 0 && |Decimal(n)| == 1
  {
    if n >= 10 {
      DecimalIsValue(n / 10);
      DecimalMore(Decimal(n / 10), n % 10);
    }
  }

  /** The number ends here: no digit and no dot follows. */
  predicate Stops(text: string, pos: nat) {
    pos >= |text| || (!IsDigit(text[pos]) && text[pos] != '.')
  }

  /** The first character of a number, and the digits after it. */
  lemma IntStarts(text: string, pos: nat, n: int, e: nat)
    requires At(text, pos, PrintInt(n)) && e == pos + |PrintInt(n)|
    ensures pos < e && StartsNumber(text[pos]) && (forall i :: pos + 1 <= i < e ==> IsDigit(text[i]))
    ensures !LeadingZero(text, pos, e) && (INT64_MIN <= n <= INT64_MAX ==> IntAt(text, pos, e) == n)
  {
    var from := if n < 0 then pos + 1 else pos;
    var s := Decimal(if n < 0 then -n else n);
    if n < 0 {
      AtFirst(text, pos, '-', s);
      DecimalIsValue(-n);
    } else {
      DecimalIsValue(n);
    }
    DigitsAt(text, from, s);
    DecimalShifted(text, from, s, 0, |s|);
    AtIndex(text, from, s, 0);
  }

  lemma DigitsAt(text: string, pos: nat, s: string)
    requires At(text, pos, s) && AllDigits(s)
    ensures forall i :: pos <= i < pos + |s| ==> IsDigit(text[i])
  {
    forall i | pos <= i < pos + |s|
      ensures IsDigit(text[i])
    {
      AtIndex(text, pos, s, i - pos);
    }
  }

  lemma IntRead(text: string, pos: nat, n: int)
    requires INT64_MIN <= n <= INT64_MAX && At(text, pos, PrintInt(n)) && Stops(text, pos + |PrintInt(n)|)
    ensures StartsNumber(text[pos]) && ReadNumber(text, pos) == Done(Int(n), pos + |PrintInt(n)|)
  {
    var e := pos + |PrintInt(n)|;
    IntStarts(text, pos, n, e);
    DigitsEnd(text, pos + 1, e);
  }

  /** The printed form starts with the character that decides how it is read. */
  lemma PrintStarts(v: Json)
    requires NoReals(v) && Normal(v)
    ensures Print(v) != [] && !IsSpace(Print(v)[0]) && Print(v)[0] != ']'
  {
    if v.Int? {
      IndicesAlike(PrintInt(v.n), 0, PrintInt(v.n), 0);
      IntStarts(PrintInt(v.n), 0, v.n, |PrintInt(v.n)|);
    }
  }

  /** Reading undoes printing, whatever follows, as long as it does not go on with a number. */
  lemma {:induction false} ReadPrinted(text: string, pos: nat, v: Json)
    requires NoReals(v) && Normal(v) && At(text, pos, Print(v)) && (v.Int? ==> Stops(text, pos + |Print(v)|))
    ensures ReadValue(text, pos) == Done(v, pos + |Print(v)|)
    decreases v, 1, 0
  {
    PrintStarts(v);
    AtIndex(text, pos, Print(v), 0);
    if v.Arr? {
      ArrayPrinted(text, pos, v);
    } else if v.Obj? {
      ObjectPrinted(text, pos, v);
    } else {
      ScalarPrinted(text, pos, v);
    }
    ValueIsAt(text, pos);
  }

  lemma ValueIsAt(text: string, pos: nat)
    requires pos < |text| && !IsSpace(text[pos])
    ensures ReadValue(text, pos) == ReadAt(text, pos)
  {
  }

  lemma ScalarPrinted(text: string, pos: nat, v: Json)
    requires NoReals(v) && Normal(v) && !v.Arr? && !v.Obj?
    requires At(text, pos, Print(v)) && (v.Int? ==> Stops(text, pos + |Print(v)|))
    ensures pos < |text| && ReadAt(text, pos) == Done(v, pos + |Print(v)|)
  {
    PrintStarts(v);
    AtIndex(text, pos, Print(v), 0);
    match v
    case Nil => WordAt(text, pos, "null");
    case Bool(b) => WordAt(text, pos, if b then "true" else "false");
    case Int(n) => IntRead(text, pos, n);
    case Str(s) => StringPrinted(text, pos, s);
  }

  lemma WordAt(text: string, pos: nat, w: string)
    requires At(text, pos, w) && 4 <= |w| <= 5
    ensures text[pos + 1] == w[1] && text[pos + 2] == w[2] && text[pos + 3] == w[3]
    ensures |w| == 5 ==> text[pos + 4] == w[4]
  {
    AtIndex(text, pos, w, 1);
    AtIndex(text, pos, w, 2);
    AtIndex(text, pos, w, 3);
    if |w| == 5 {
      AtIndex(text, pos, w, 4);
    }
  }

  lemma StringPrinted(text: string, pos: nat, s: string)
    requires WellEscaped(s) && At(text, pos, Quoted(s))
    ensures text[pos] == '"' && ReadToken(text, pos + 1) == Done(s, pos + |Quoted(s)|)
  {
    AtFirst(text, pos, '"', s + "\"");
    TokenRead(text, pos + 1, s);
  }

  // ----- arrays

  lemma {:induction false} ArrayPrinted(text: string, pos: nat, v: Json)
    requires v.Arr? && NoReals(v) && Normal(v) && At(text, pos, Print(v))
    ensures pos < |text| && ReadAt(text, pos) == Done(v, pos + |Print(v)|)
    decreases v, 0, |v.items| + 1, 0
  {
    if v.items == [] {
      AtFirst(text, pos, '[', "]");
      EmptyArray(text, pos + 1);
    } else {
      AtFirst(text, pos, '[', PrintItems(v, 0));
      ItemsStart(text, pos + 1, v);
      ItemsPrinted(text, pos + 1, v, 0);
    }
  }

  lemma EmptyArray(text: string, pos: nat)
    requires At(text, pos, "]")
    ensures ReadArray(text, pos) == Done(Arr([]), pos + 1)
  {
    assert "]" == [']'] + [];
    AtFirst(text, pos, ']', []);
  }

  lemma ItemsStart(text: string, pos: nat, v: Json)
    requires v.Arr? && v.items != [] && NoReals(v) && Normal(v) && At(text, pos, PrintItems(v, 0))
    ensures ReadArray(text, pos) == ReadItems(text, pos, v.items[..0])
  {
    PrintStarts(v.items[0]);
    AtIndex(text, pos, PrintItems(v, 0), 0);
    assert PrintItems(v, 0)[0] == Print(v.items[0])[0];
    assert SkipSpace(text, pos) == pos;
    assert v.items[..0] == [];
  }

  lemma ItemsParts(text: string, pos: nat, v: Json, i: nat, next: nat)
    requires v.Arr? && i < |v.items| && NoReals(v) && At(text, pos, PrintItems(v, i))
    requires next == pos + |Print(v.items[i])|
    ensures At(text, pos, Print(v.items[i])) && next < |text|
    ensures i + 1 == |v.items| ==> text[next] == ']' && next + 1 == pos + |PrintItems(v, i)|
    ensures i + 1 < |v.items| ==>
      && text[next] == ',' && At(text, next + 1, PrintItems(v, i + 1))
      && next + 1 + |PrintItems(v, i + 1)| == pos + |PrintItems(v, i)|
  {
    var item := Print(v.items[i]);
    if i + 1 == |v.items| {
      AtParts(text, pos, item, "]");
      assert "]" == [']'] + [];
      AtFirst(text, pos + |item|, ']', []);
    } else {
      AtParts(text, pos, item, "," + PrintItems(v, i + 1));
      AtFirst(text, pos + |item|, ',', PrintItems(v, i + 1));
    }
  }

  lemma ItemsStep(text: string, pos: nat, items: seq<Json>, i: nat, next: nat)
    requires pos <= |text| && i < |items| && ReadValue(text, pos) == Done(items[i], next) && next < |text|
    ensures i + 1 == |items| && text[next] == ']' ==> ReadItems(text, pos, items[..i]) == Done(Arr(items), next + 1)
    ensures text[next] == ',' ==> ReadItems(text, pos, items[..i]) == ReadItems(text, next + 1, items[..i + 1])
  {
    assert items[..i] + [items[i]] == items[..i + 1];
    assert i + 1 == |items| ==> items[..i + 1] == items;
  }

  lemma {:induction false} ItemPrinted(text: string, pos: nat, v: Json, i: nat, next: nat)
    requires v.Arr? && i < |v.items| && NoReals(v) && Normal(v) && At(text, pos, PrintItems(v, i))
    requires next == pos + |Print(v.items[i])|
    ensures pos <= |text| && ReadValue(text, pos) == Done(v.items[i], next)
    decreases v, 0, |v.items| - i, 0
  {
    ItemsParts(text, pos, v, i, next);
    ReadPrinted(text, pos, v.items[i]);
  }

  lemma {:induction false} ItemsPrinted(text: string, pos: nat, v: Json, i: nat)
    requires v.Arr? && i < |v.items| && NoReals(v) && Normal(v) && At(text, pos, PrintItems(v, i))
    ensures ReadItems(text, pos, v.items[..i]) == Done(v, pos + |PrintItems(v, i)|)
    decreases v, 0, |v.items| - i, 1
  {
    var next := pos + |Print(v.items[i])|;
    ItemPrinted(text, pos, v, i, next);
    ItemsParts(text, pos, v, i, next);
    if i + 1 < |v.items| {
      ItemsPrinted(text, next + 1, v, i + 1);
    }
    ItemsStep(text, pos, v.items, i, next);
  }

  // ----- objects

  lemma {:induction false} ObjectPrinted(text: string, pos: nat, v: Json)
    requires v.Obj? && NoReals(v) && Normal(v) && At(text, pos, Print(v))
    ensures pos < |text| && ReadAt(text, pos) == Done(v, pos + |Print(v)|)
    decreases v, 0, |v.members| + 1
  {
    if v.members == [] {
      AtFirst(text, pos, '{', "}");
      EmptyObject(text, pos + 1);
    } else {
      AtFirst(text, pos, '{', PrintMembers(v, 0));
      MembersStart(text, pos + 1, v);
      MembersPrinted(text, pos + 1, v, 0);
    }
  }

  lemma EmptyObject(text: string, pos: nat)
    requires At(text, pos, "}")
    ensures ReadObject(text, pos) == Done(Obj([]), pos + 1)
  {
    assert "}" == ['}'] + [];
    AtFirst(text, pos, '}', []);
  }

  lemma MembersStart(text: string, pos: nat, v: Json)
    requires v.Obj? && v.members != [] && NoReals(v) && At(text, pos, PrintMembers(v, 0))
    ensures ReadObject(text, pos) == ReadMembers(text, pos, v.members[..0])
  {
    FirstQuote(text, pos, v, 0);
    assert v.members[..0] == [];
  }

  /** What follows a member. */
  function MembersTail(v: Json, i: nat): string
    requires v.Obj? && i < |v.members| && NoReals(v)
  {
    if i + 1 == |v.members| then "}" else "," + PrintMembers(v, i + 1)
  }

  lemma MemberParts(text: string, pos: nat, key: string, value: string, tail: string)
    requires At(text, pos, Quoted(key) + (":" + (value + tail))) && WellEscaped(key)
    ensures var p := pos + |Quoted(key)|;
      && text[pos] == '"' && ReadToken(text, pos + 1) == Done(key, p)
      && text[p] == ':' && At(text, p + 1, value) && At(text, p + 1 + |value|, tail)
  {
    AtParts(text, pos, Quoted(key), ":" + (value + tail));
    StringPrinted(text, pos, key);
    AtFirst(text, pos + |Quoted(key)|, ':', value + tail);
    AtParts(text, pos + |Quoted(key)| + 1, value, tail);
  }

  lemma MemberStep(text: string, pos: nat, key: string, p: nat, v: Json, next: nat)
    requires pos < p < next < |text| && text[pos] == '"' && ReadToken(text, pos + 1) == Done(key, p)
    requires text[p] == ':' && ReadValue(text, p + 1) == Done(v, next)
    ensures ReadMember(text, pos) == Done(Member(key, v), next)
  {
  }

  lemma MembersStep(text: string, pos: nat, members: seq<Member>, i: nat, next: nat)
    requires pos < |text| && Ascending(members) && i < |members|
    requires ReadMember(text, pos) == Done(members[i], next) && next < |text|
    ensures i + 1 == |members| && text[next] == '}' ==>
      ReadMembers(text, pos, members[..i]) == Done(Obj(members), next + 1)
    ensures text[next] == ',' && next + 1 < |text| && text[next + 1] == '"'
        ==> ReadMembers(text, pos, members[..i]) == ReadMembers(text, next + 1, members[..i + 1])
  {
    InsertLast(members, i);
    assert i + 1 == |members| ==> members[..i + 1] == members;
  }

  lemma MemberText(text: string, pos: nat, v: Json, i: nat, p: nat, next: nat)
    requires v.Obj? && i < |v.members| && NoReals(v) && NormalMember(v.members[i]) && At(text, pos, PrintMembers(v, i))
    requires p == pos + |Quoted(v.members[i].key)| && next == p + 1 + |Print(v.members[i].value)|
    ensures pos < p < next < |text| && text[pos] == '"' && ReadToken(text, pos + 1) == Done(v.members[i].key, p)
    ensures text[p] == ':' && At(text, p + 1, Print(v.members[i].value)) && Stops(text, next)
    ensures next + |MembersTail(v, i)| == pos + |PrintMembers(v, i)| && At(text, next, MembersTail(v, i))
  {
    var m, tail := v.members[i], MembersTail(v, i);
    MemberParts(text, pos, m.key, Print(m.value), tail);
    AtIndex(text, next, tail, 0);
  }

  lemma {:induction false} MemberPrinted(text: string, pos: nat, v: Json, i: nat) returns (next: nat)
    requires v.Obj? && i < |v.members| && NoReals(v) && Normal(v) && At(text, pos, PrintMembers(v, i))
    ensures next + |MembersTail(v, i)| == pos + |PrintMembers(v, i)|
    ensures At(text, next, MembersTail(v, i)) && ReadMember(text, pos) == Done(v.members[i], next)
    decreases v, 0, |v.members| - i, 0
  {
    var m := v.members[i];
    assert NormalMember(m);
    var p := pos + |Quoted(m.key)|;
    next := p + 1 + |Print(m.value)|;
    MemberText(text, pos, v, i, p, next);
    MemberValue(text, p + 1, v, i);
    MemberStep(text, pos, m.key, p, m.value, next);
  }

  lemma {:induction false} MemberValue(text: string, pos: nat, v: Json, i: nat)
    requires v.Obj? && i < |v.members| && NoReals(v) && NormalMember(v.members[i])
    requires At(text, pos, Print(v.members[i].value)) && Stops(text, pos + |Print(v.members[i].value)|)
    ensures ReadValue(text, pos) == Done(v.members[i].value, pos + |Print(v.members[i].value)|)
    decreases v, 0, 0
  {
    ReadPrinted(text, pos, v.members[i].value);
  }

  lemma MembersParts(text: string, next: nat, v: Json, i: nat)
    requires v.Obj? && i < |v.members| && NoReals(v) && At(text, next, MembersTail(v, i))
    ensures next < |text|
    ensures i + 1 == |v.members| ==> text[next] == '}'
    ensures i + 1 < |v.members| ==>
      next + 1 < |text| && text[next] == ',' && text[next + 1] == '"' && At(text, next + 1, PrintMembers(v, i + 1))
  {
    if i + 1 == |v.members| {
      AtIndex(text, next, "}", 0);
    } else {
      AtFirst(text, next, ',', PrintMembers(v, i + 1));
      FirstQuote(text, next + 1, v, i + 1);
    }
  }

  lemma {:induction false} MembersPrinted(text: string, pos: nat, v: Json, i: nat)
    requires v.Obj? && i < |v.members| && NoReals(v) && Normal(v) && At(text, pos, PrintMembers(v, i))
    ensures ReadMembers(text, pos, v.members[..i]) == Done(v, pos + |PrintMembers(v, i)|)
    decreases v, 0, |v.members| - i, 1
  {
    var next := MemberPrinted(text, pos, v, i);
    MembersParts(text, next, v, i);
    if i + 1 < |v.members| {
      MembersPrinted(text, next + 1, v, i + 1);
    }
    MembersStep(text, pos, v.members, i, next);
  }

  lemma FirstQuote(text: string, pos: nat, v: Json, i: nat)
    requires v.Obj? && i < |v.members| && NoReals(v) && At(text, pos, PrintMembers(v, i))
    ensures text[pos] == '"'
  {
    AtIndex(text, pos, PrintMembers(v, i), 0);
  }

  lemma InsertLast(members: seq<Member>, i: nat)
    requires Ascending(members) && i < |members|
    ensures Insert(members[..i], members[i].key, members[i].value) == members[..i + 1]
  {
    assert members[..i] + [members[i]] == members[..i + 1];
    assert i > 0 ==> Less(members[i - 1].key, members[i].key);
  }

  lemma PrintedFirst(v: Json, rest: string)
    requires NoReals(v)
    ensures At(Print(v) + rest, 0, Print(v)) && (Stops(Print(v) + rest, |Print(v)|) <==> Stops(rest, 0))
  {
    var text := Print(v) + rest;
    IndicesAlike(text, 0, Print(v), 0);
    assert rest != [] ==> text[|Print(v)|] == rest[0];
  }

  /** A number runs on into digits that follow it. */
  lemma NumberRunsOn(text: string, pos: nat, e: nat)
    requires pos < e < |text| && (forall i :: pos + 1 <= i < e ==> IsDigit(text[i])) && !Stops(text, e)
    ensures ReadNumber(text, pos) == Failed || ReadNumber(text, pos).next > e
  {
    DigitsRunOn(text, pos + 1, e);
    if ReadNumber(text, pos).Done? {
      NumberEnd(text, pos);
    }
  }

  lemma NumberEnd(text: string, pos: nat)
    requires pos < |text| && ReadNumber(text, pos).Done?
    ensures var e := Digits(text, pos + 1);
      ReadNumber(text, pos).next >= if e < |text| && text[e] == '.' then e + 1 else e
  {
  }

  lemma {:induction false} DigitsRunOn(text: string, pos: nat, q: nat)
    requires pos <= q < |text| && (forall i :: pos <= i < q ==> IsDigit(text[i]))
    ensures Digits(text, pos) >= q && (IsDigit(text[q]) ==> Digits(text, pos) > q)
    decreases q - pos
  {
    if pos < q {
      DigitsRunOn(text, pos + 1, q);
    }
  }

  lemma ReadsBack(text: string, v: Json)
    requires NoReals(v) && Normal(v) && At(text, 0, Print(v))
    ensures ReadValue(text, 0) == Done(v, |Print(v)|) <==> !v.Int? || Stops(text, |Print(v)|)
  {
    if !v.Int? || Stops(text, |Print(v)|) {
      ReadPrinted(text, 0, v);
    } else {
      IntNotBack(text, v.n);
    }
  }

  lemma IntNotBack(text: string, n: int)
    requires At(text, 0, PrintInt(n)) && !Stops(text, |PrintInt(n)|)
    ensures ReadValue(text, 0) == Failed || ReadValue(text, 0).next > |PrintInt(n)|
  {
    var e := |PrintInt(n)|;
    IntStarts(text, 0, n, e);
    NotBack(text, 0, e);
  }

  lemma NotBack(text: string, pos: nat, e: nat)
    requires pos < e < |text| && (forall i :: pos + 1 <= i < e ==> IsDigit(text[i])) && !Stops(text, e)
    requires StartsNumber(text[pos])
    ensures ReadValue(text, pos) == Failed || ReadValue(text, pos).next > e
  {
    ValueIsAt(text, pos);
    NumberRunsOn(text, pos, e);
  }

  /** The round trip, for every text that may follow: reading gives the value back and stops where it
      was printed, except for an integer with a digit or a dot behind it. */
  lemma RoundTrip(v: Json, rest: string)
    requires NoReals(v) && Normal(v)
    ensures ReadValue(Print(v) + rest, 0) == Done(v, |Print(v)|) <==> !v.Int? || Stops(rest, 0)
  {
    PrintedFirst(v, rest);
    ReadsBack(Print(v) + rest, v);
  }

  /** A real without exponent is read up to the end of the text. The reader then looks past the end
      a second time, which makes the stream fail. */
  predicate EndsBare(text: string, r: Read<Json>) {
    r.Done? && r.next == |text| && r.value.Real? && 'e' !in r.value.digits
  }

  /** `fromString`: what follows the value is not looked at, and a failed stream is refused. */
  function FromString(source: string): Read<Json> {
    var r := ReadValue(source, 0);
    if EndsBare(source, r) then Failed else r
  }

  /** A text that is a real without exponent and nothing after it is refused, although the same text
      with a space behind it is read. */
  lemma BareRealRefused()
    ensures FromString("1.5") == Failed && FromString("1.5 ") == Done(Real("1.5"), 3)
  {
    BareRead("1.5");
    BareRead("1.5 ");
  }

  lemma BareRead(text: string)
    requires text == "1.5" || text == "1.5 "
    ensures ReadValue(text, 0) == Done(Real("1.5"), 3)
  {
    ValueIsAt(text, 0);
    DigitsEnd(text, 1, 1);
    DigitsEnd(text, 2, 3);
    assert text[0..3] == "1.5";
  }

  /** `fromString` undoes `toString`. */
  lemma FromToString(v: Json)
    requires NoReals(v) && Normal(v)
    ensures FromString(Print(v)) == Done(v, |Print(v)|)
  {
    RoundTrip(v, "");
    assert Print(v) + "" == Print(v);
  }

  /** Different values print differently. */
  lemma PrintInjective(v: Json, w: Json)
    requires NoReals(v) && Normal(v) && NoReals(w) && Normal(w) && Print(v) == Print(w)
    ensures v == w
  {
    FromToString(v);
    FromToString(w);
  }

  // ----------------------------------------------------------------------- normal form

  lemma {:induction false} TokenEscaped(text: string, start: nat, pos: nat, e: nat)
    requires start <= pos <= |text| && ClosingQuote(text, pos) == e < |text|
    ensures EscapedFrom(text[start..e], pos - start)
    decreases e - pos
  {
    var s := text[start..e];
    if pos < e {
      assert s[pos - start] == text[pos];
      TokenEscaped(text, start, if text[pos] == '\\' then pos + 2 else pos + 1, e);
    }
  }

  lemma TokenWellEscaped(text: string, pos: nat)
    requires pos <= |text|
    ensures ReadToken(text, pos).Done? ==> WellEscaped(ReadToken(text, pos).value)
  {
    var e := ClosingQuote(text, pos);
    if e < |text| {
      TokenEscaped(text, pos, pos, e);
    }
  }

  ghost predicate AllNormal(members: seq<Member>) {
    forall i :: 0 <= i < |members| ==> NormalMember(members[i])
  }

  lemma {:induction false} InsertNormal(members: seq<Member>, key: string, value: Json)
    requires AllNormal(members) && NormalMember(Member(key, value))
    ensures AllNormal(Insert(members, key, value))
  {
    if members != [] {
      InsertNormal(members[..|members| - 1], key, value);
    }
  }

  /** Whatever is read is normal: integers in range, strings and keys well escaped, keys ascending. */
  lemma {:induction false} ReadIsNormal(text: string, pos: nat)
    requires pos <= |text|
    ensures ReadValue(text, pos).Done? ==> Normal(ReadValue(text, pos).value)
    decreases |text| - pos, 0
  {
    var p := SkipSpace(text, pos);
    if p < |text| {
      if text[p] == '[' {
        ArrayIsNormal(text, p + 1);
      } else if text[p] == '{' {
        ObjectIsNormal(text, p + 1);
      } else {
        ScalarIsNormal(text, p);
      }
    }
  }

  lemma ScalarIsNormal(text: string, pos: nat)
    requires pos < |text|
    ensures ReadScalar(text, pos).Done? ==> Normal(ReadScalar(text, pos).value)
  {
    if text[pos] == '"' {
      TokenWellEscaped(text, pos + 1);
    }
  }

  lemma {:induction false} ArrayIsNormal(text: string, pos: nat)
    requires pos <= |text|
    ensures ReadArray(text, pos).Done? ==> Normal(ReadArray(text, pos).value)
    decreases |text| - pos, 2
  {
    var p := SkipSpace(text, pos);
    if p < |text| && text[p] != ']' {
      ItemsAreNormal(text, p, []);
    }
  }

  lemma {:induction false} ItemsAreNormal(text: string, pos: nat, items: seq<Json>)
    requires pos <= |text| && forall i :: 0 <= i < |items| ==> Normal(items[i])
    ensures ReadItems(text, pos, items).Done? ==> Normal(ReadItems(text, pos, items).value)
    decreases |text| - pos, 1
  {
    var v := ReadValue(text, pos);
    ReadIsNormal(text, pos);
    if v.Done? {
      var more := ReadSeparator(text, v.next, ']');
      if more.Done? && more.value {
        ItemsAreNormal(text, more.next, items + [v.value]);
      }
    }
  }

  lemma {:induction false} ObjectIsNormal(text: string, pos: nat)
    requires pos <= |text|
    ensures ReadObject(text, pos).Done? ==> Normal(ReadObject(text, pos).value)
    decreases |text| - pos, 2
  {
    var p := SkipSpace(text, pos);
    if p < |text| && text[p] != '}' {
      MembersAreNormal(text, p, []);
    }
  }

  lemma {:induction false} MemberIsNormal(text: string, pos: nat)
    requires pos < |text|
    ensures ReadMember(text, pos).Done? ==> NormalMember(ReadMember(text, pos).value)
    decreases |text| - pos, 0
  {
    if ReadMember(text, pos).Done? {
      TokenWellEscaped(text, pos + 1);
      ReadIsNormal(text, SkipSpace(text, ReadToken(text, pos + 1).next) + 1);
    }
  }

  lemma {:induction false} MembersAreNormal(text: string, pos: nat, members: seq<Member>)
    requires pos < |text| && Ascending(members) && AllNormal(members)
    ensures ReadMembers(text, pos, members).Done? ==> Normal(ReadMembers(text, pos, members).value)
    decreases |text| - pos, 1
  {
    var m := ReadMember(text, pos);
    if m.Done? {
      MemberIsNormal(text, pos);
      InsertAscends(members, m.value.key, m.value.value);
      InsertNormal(members, m.value.key, m.value.value);
      var more := ReadSeparator(text, m.next, '}');
      if more.Done? && more.value {
        var p := SkipSpace(text, more.next);
        if p < |text| {
          MembersAreNormal(text, p, Insert(members, m.value.key, m.value.value));
        }
      }
    }
  }

  /** Normal form: printing what was read from any text, and reading that, gives the same value. */
  lemma NormalForm(text: string, pos: nat)
    requires pos <= |text| && ReadValue(text, pos).Done? && NoReals(ReadValue(text, pos).value)
    ensures var v := ReadValue(text, pos).value;
      FromString(Print(v)) == Done(v, |Print(v)|)
  {
    ReadIsNormal(text, pos);
    FromToString(ReadValue(text, pos).value);
  }
}
