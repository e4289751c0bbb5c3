/** Reading JSON from a stream and writing it to one, step by step. */
module JsonStreams {
  import opened Sequences
  import opened JsonText

  function Outcome<T>(ok: bool, value: T, pos: nat): Read<T> {
    if ok then Done(value, pos) else Failed
  }

  lemma NumeralAlone(text: string, start: nat, e: nat)
    requires start < e <= |text|
    ensures var numeral := text[start..e];
      && LeadingZero(numeral, 0, |numeral|) == LeadingZero(text, start, e)
      && IntAt(numeral, 0, |numeral|) == IntAt(text, start, e)
  {
    var numeral := text[start..e];
    IndicesAlike(text, start, numeral, 0);
    DecimalShifted(text, start, numeral, 0, |numeral|);
    DecimalShifted(text, start, numeral, 1, |numeral|);
  }

  /** Digits and dots are read up to `pos`, with so many dots among them. */
  ghost predicate Scanned(text: string, start: nat, pos: nat, dots: nat) {
    && start < pos <= |text|
    && var e := Digits(text, start + 1);
       if dots == 0 then Digits(text, pos) == e
       else && e < |text| && text[e] == '.'
            && var f := Digits(text, e + 1);
               if dots == 1 then Digits(text, pos) == f else f < |text| && text[f] == '.'
  }

  lemma DotScanned(text: string, start: nat, pos: nat, dots: nat)
    requires Scanned(text, start, pos, dots) && pos < |text| && text[pos] == '.'
    ensures Scanned(text, start, pos + 1, dots + 1)
  {
  }

  lemma DigitScanned(text: string, start: nat, pos: nat, dots: nat)
    requires Scanned(text, start, pos, dots) && pos < |text| && IsDigit(text[pos])
    ensures Scanned(text, start, pos + 1, dots)
  {
  }

  lemma ScanEnded(text: string, start: nat, pos: nat, dots: nat)
    requires Scanned(text, start, pos, dots) && Stops(text, pos)
    ensures dots == 0 && LeadingZero(text, start, pos) ==> ReadNumber(text, start) == Failed
    ensures dots == 0 && !LeadingZero(text, start, pos) ==>
      ReadNumber(text, start) == Done(Int(IntAt(text, start, pos)), pos)
    ensures dots == 1 ==> ReadNumber(text, start) == ReadReal(text, start, pos)
    ensures dots > 1 ==> ReadNumber(text, start) == Failed
  {
    assert Digits(text, pos) == pos;
  }

  /** Where the next member starts, or where the object ends. */
  function NextMember(text: string, pos: nat): Read<bool>
    requires pos <= |text|
  {
    var more := ReadSeparator(text, pos, '}');
    if more.Failed? || !more.value then more
    else if SkipSpace(text, more.next) == |text| then Failed
    else Done(true, SkipSpace(text, more.next))
  }

  lemma MembersUnfold(text: string, pos: nat, members: seq<Member>, m: Member, next: nat)
    requires pos < |text| && next <= |text| && ReadMember(text, pos) == Done(m, next)
    ensures var all := Insert(members, m.key, m.value);
      var more := NextMember(text, next);
      ReadMembers(text, pos, members) == (
        if more.Failed? then Failed
        else if more.value then ReadMembers(text, more.next, all)
        else Done(Obj(all), more.next))
  {
  }

  /** An input stream: its text, how much of it is consumed, and its flags. `eof` says that the end was
      looked at, `fail` that something was asked of the stream after that. A reader that throws
      reports `!ok`. */
  class Input {
    const text: string
    var pos: nat
    var eof: bool
    var fail: bool

    constructor (text: string)
      ensures this.text == text && pos == 0 && !eof && !fail
    {
      this.text := text;
      pos, eof, fail := 0, false, false;
    }

    ghost predicate Valid()
      reads this
    {
      pos <= |text| && (fail ==> eof) && (eof ==> pos == |text|)
    }

    /** `peek`: the next character, or nothing at the end. */
    method Peek() returns (more: bool, c: char)
      requires Valid()
      modifies this`eof, this`fail
      ensures Valid() && more == (pos < |text|) && (more ==> c == text[pos])
      ensures eof == !more && fail == old(fail || eof)
    {
      more, c := false, '\0';
      if eof {
        fail := true;
      } else if pos == |text| {
        eof := true;
      } else {
        more, c := true, text[pos];
      }
    }

    method ReadChar() returns (ok: bool, c: char)
      requires Valid()
      modifies this
      ensures Valid() && ok == (old(pos) < |text|)
      ensures if ok then c == text[old(pos)] && pos == old(pos) + 1 && !eof && !fail else pos == old(pos)
    {
      ok, c := !eof && pos < |text|, '\0';
      if ok {
        c, pos := text[pos], pos + 1;
      } else {
        eof, fail := true, true;
      }
    }

    method ReadNonWsChar() returns (ok: bool, c: char)
      requires Valid()
      modifies this
      ensures Valid() && ok == (SkipSpace(text, old(pos)) < |text|)
      ensures ok ==> pos == SkipSpace(text, old(pos)) + 1 && c == text[pos - 1] && !eof && !fail
    {
      ok, c := ReadChar();
      while ok && IsSpace(c)
        invariant Valid() && (ok ==> !eof && !fail)
        invariant ok ==> 0 < pos && c == text[pos - 1] && SkipSpace(text, pos - 1) == SkipSpace(text, old(pos))
        invariant !ok ==> SkipSpace(text, old(pos)) == |text|
        decreases |text| - pos, ok
      {
        ok, c := ReadChar();
      }
    }

    /** A string after its opening quote. The loop copies characters and their escapes one by one. */
    method ReadStringToken() returns (ok: bool, value: string)
      requires Valid()
      modifies this
      ensures Valid() && Outcome(ok, value, pos) == ReadToken(text, old(pos)) && (ok ==> !fail)
    {
      value := "";
      ghost var start := pos;
      var c;
      ok, c := ReadChar();
      while ok && c != '"'
        invariant Valid() && (ok ==> !fail)
        invariant if ok then start < pos && c == text[pos - 1] else pos == |text|
        invariant ok ==> value == text[start..pos - 1]
        invariant ClosingQuote(text, start) == if ok then ClosingQuote(text, pos - 1) else |text|
        decreases |text| - pos, ok
      {
        Longer(text, start, pos - 1);
        if c == '\\' {
          value := value + [c];
          ok, c := ReadChar();
          if !ok { return; }
          Longer(text, start, pos - 1);
        }
        value := value + [c];
        ok, c := ReadChar();
      }
    }

    /** A number whose first character is read. */
    method ReadNumber(c: char) returns (ok: bool, v: Json)
      requires Valid() && 0 < pos && c == text[pos - 1] && StartsNumber(c) && !eof
      modifies this
      ensures Valid() && Outcome(ok, v, pos) == JsonText.ReadNumber(text, old(pos) - 1)
      ensures ok ==> fail == EndsBare(text, Outcome(ok, v, pos))
    {
      ghost var start := pos - 1;
      var numeral, dots := ScanNumeral(c);
      ScanEnded(text, start, pos, dots);
      ok, v := false, Nil;
      if dots > 1 { return; }
      if dots > 0 {
        ok, numeral := ReadExponent(numeral, start);
        v := Real(numeral);
      } else {
        NumeralAlone(text, start, pos);
        if LeadingZero(numeral, 0, |numeral|) { return; }
        ok, v := true, Int(IntAt(numeral, 0, |numeral|));
      }
    }

    method ScanNumeral(c: char) returns (numeral: string, dots: nat)
      requires Valid() && 0 < pos && c == text[pos - 1] && StartsNumber(c) && !eof
      modifies this
      ensures Valid() && Scanned(text, old(pos) - 1, pos, dots) && Stops(text, pos)
      ensures numeral == text[old(pos) - 1..pos] && 'e' !in numeral
      ensures eof == (pos == |text|) && !fail
    {
      numeral, dots := [c], 0;
      ghost var start := pos - 1;
      var more, next := Peek();
      while more && (IsDigit(next) || next == '.')
        invariant Scanned(text, start, pos, dots) && numeral == text[start..pos] && 'e' !in numeral
        invariant Valid() && more == (pos < |text|) && (more ==> next == text[pos]) && eof == !more && !fail
        decreases |text| - pos, more
      {
        if IsDigit(next) {
          DigitScanned(text, start, pos, dots);
        } else {
          DotScanned(text, start, pos, dots);
          dots := dots + 1;
        }
        numeral, more, next := Take(numeral, start);
      }
    }

    method ReadExponent(digits: string, ghost start: nat) returns (ok: bool, numeral: string)
      requires Valid() && start <= pos && digits == text[start..pos] && Stops(text, pos)
      requires 'e' !in digits && eof == (pos == |text|) && !fail
      modifies this
      ensures Valid() && Outcome(ok, Real(numeral), pos) == ReadReal(text, start, old(pos))
      ensures ok ==> fail == (pos == |text| && 'e' !in numeral)
    {
      ok, numeral := true, digits;
      var more, c := Peek();
      if more && c == 'e' {
        numeral, more, c := Take(numeral, start);
        if more && (c == '+' || c == '-') {
          numeral, more, c := Take(numeral, start);
        }
        ok := more && IsDigit(c);
        if ok {
          numeral := TakeDigits(numeral, start);
        }
      }
    }

    /** The digits of an exponent. */
    method TakeDigits(digits: string, ghost start: nat) returns (numeral: string)
      requires Valid() && start <= pos < |text| && digits == text[start..pos] && IsDigit(text[pos])
      modifies this
      ensures Valid() && !fail && pos == Digits(text, old(pos))
      ensures start <= pos && numeral == text[start..pos] && ('e' in digits ==> 'e' in numeral)
    {
      var more, c;
      numeral, more, c := Take(digits, start);
      ghost var g := old(pos);
      while more && IsDigit(c)
        invariant Valid() && start <= pos && numeral == text[start..pos] && Digits(text, pos) == Digits(text, g)
        invariant more == (pos < |text|) && (more ==> c == text[pos]) && !fail && ('e' in digits ==> 'e' in numeral)
        decreases |text| - pos, more
      {
        numeral, more, c := Take(numeral, start);
      }
    }

    /** One more character of a numeral, and a look at the next. */
    method Take(numeral: string, ghost start: nat) returns (longer: string, more: bool, c: char)
      requires Valid() && start <= pos < |text| && numeral == text[start..pos]
      modifies this
      ensures Valid() && pos == old(pos) + 1 && longer == text[start..pos]
      ensures 'e' in longer <==> 'e' in numeral || text[old(pos)] == 'e'
      ensures more == (pos < |text|) && (more ==> c == text[pos]) && eof == !more && !fail
    {
      Longer(text, start, pos);
      longer, pos := numeral + [text[pos]], pos + 1;
      more, c := Peek();
    }

    /** `operator>>`. */
    method ReadValue() returns (ok: bool, v: Json)
      requires Valid()
      modifies this
      ensures Valid() && Outcome(ok, v, pos) == JsonText.ReadValue(text, old(pos))
      ensures ok ==> fail == EndsBare(text, Outcome(ok, v, pos))
      decreases |text| - pos, 1
    {
      var c;
      ok, c := ReadNonWsChar();
      if !ok { return false, Nil; }
      if c == '[' {
        ok, v := ReadArray();
      } else if c == '{' {
        ok, v := ReadObject();
      } else {
        ok, v := ReadScalar(c);
      }
    }

    method ReadScalar(c: char) returns (ok: bool, v: Json)
      requires Valid() && 0 < pos && c == text[pos - 1] && !eof
      modifies this
      ensures Valid() && Outcome(ok, v, pos) == JsonText.ReadScalar(text, old(pos) - 1)
      ensures ok ==> fail == EndsBare(text, Outcome(ok, v, pos))
    {
      if c == 't' {
        ok, v := ReadTrue();
      } else if c == 'f' {
        ok, v := ReadFalse();
      } else if c == '-' || '0' <= c <= '9' {
        ok, v := ReadNumber(c);
      } else if c == 'n' {
        ok, v := ReadNull();
      } else if c == '"' {
        var value;
        ok, value := ReadStringToken();
        v := Str(value);
      } else {
        ok, v := false, Nil;
      }
    }

    method ReadTrue() returns (ok: bool, v: Json)
      requires Valid() && !eof
      modifies this
      ensures Valid() && Outcome(ok, v, pos) == JsonText.ReadTrue(text, old(pos)) && (ok ==> !fail)
    {
      var data := ReadBlock(3);
      ok, v := |data| == 3 && data[0] == 'r' && data[1] == 'u' && data[2] == 'e', Bool(true);
    }

    method ReadFalse() returns (ok: bool, v: Json)
      requires Valid() && !eof
      modifies this
      ensures Valid() && Outcome(ok, v, pos) == JsonText.ReadFalse(text, old(pos)) && (ok ==> !fail)
    {
      var data := ReadBlock(4);
      ok, v := |data| == 4 && data[0] == 'a' && data[1] == 'l' && data[2] == 's' && data[3] == 'e', Bool(false);
    }

    method ReadNull() returns (ok: bool, v: Json)
      requires Valid() && !eof
      modifies this
      ensures Valid() && Outcome(ok, v, pos) == JsonText.ReadNull(text, old(pos)) && (ok ==> !fail)
    {
      var data := ReadBlock(3);
      ok, v := |data| == 3 && data[0] == 'u' && data[1] == 'l' && data[2] == 'l', Nil;
    }

    /** Up to `n` characters. */
    method ReadBlock(n: nat) returns (data: string)
      requires Valid() && !eof
      modifies this
      ensures Valid() && pos == old(pos) + |data| && data == text[old(pos)..pos]
      ensures if |data| == n then !fail else |data| < n && pos == |text|
    {
      var e := if n < |text| - pos then pos + n else |text|;
      eof := n > |text| - pos;
      fail := eof;
      data, pos := text[pos..e], e;
    }

    /** The comma after an item or member, or the closing bracket. */
    method ReadSeparator(close: char) returns (ok: bool, more: bool)
      requires Valid()
      modifies this
      ensures Valid() && Outcome(ok, more, pos) == JsonText.ReadSeparator(text, old(pos), close)
      ensures ok ==> !eof && !fail
    {
      var c;
      ok, c := ReadNonWsChar();
      more := ok && c != close;
      if more && c != ',' {
        ok := false;
      }
    }

    method ReadArray() returns (ok: bool, v: Json)
      requires Valid()
      modifies this
      ensures Valid() && Outcome(ok, v, pos) == JsonText.ReadArray(text, old(pos)) && (ok ==> !fail && v.Arr?)
      decreases |text| - pos, 3
    {
      var c;
      ok, c := ReadNonWsChar();
      if !ok { return false, Nil; }
      var items: seq<Json> := [];
      if c != ']' {
        pos := pos - 1;
        ok, items := ReadItems();
      }
      v := Arr(items);
    }

    method ReadItems() returns (ok: bool, items: seq<Json>)
      requires Valid()
      modifies this
      ensures Valid() && Outcome(ok, Arr(items), pos) == JsonText.ReadItems(text, old(pos), []) && (ok ==> !fail)
      decreases |text| - pos, 2
    {
      items := [];
      var more := true;
      ghost var goal := JsonText.ReadItems(text, pos, []);
      while more
        invariant Valid() && old(pos) <= pos
        invariant goal == if more then JsonText.ReadItems(text, pos, items) else Done(Arr(items), pos)
        invariant !more ==> !fail
        decreases |text| - pos, more
      {
        var item;
        ok, item := ReadValue();
        if !ok { return; }
        items := items + [item];
        ok, more := ReadSeparator(']');
        if !ok { return; }
      }
      ok := true;
    }

    method ReadObject() returns (ok: bool, v: Json)
      requires Valid()
      modifies this
      ensures Valid() && Outcome(ok, v, pos) == JsonText.ReadObject(text, old(pos)) && (ok ==> !fail && v.Obj?)
      decreases |text| - pos, 3
    {
      var c;
      ok, c := ReadNonWsChar();
      if !ok { return false, Nil; }
      var members: seq<Member> := [];
      if c != '}' {
        ok, members := ReadMembers(c);
      }
      v := Obj(members);
    }

    /** The members, `c` being the first character of the first one. */
    method ReadMembers(c: char) returns (ok: bool, members: seq<Member>)
      requires Valid() && 0 < pos && c == text[pos - 1]
      modifies this
      ensures Valid() && Outcome(ok, Obj(members), pos) == JsonText.ReadMembers(text, old(pos) - 1, [])
      ensures ok ==> !fail
      decreases |text| - pos + 1, 2
    {
      members := [];
      var more, first := true, c;
      ghost var goal := JsonText.ReadMembers(text, pos - 1, []);
      while more
        invariant Valid() && old(pos) <= pos
        invariant more ==> first == text[pos - 1]
        invariant goal == if more then JsonText.ReadMembers(text, pos - 1, members) else Done(Obj(members), pos)
        invariant !more ==> !fail
        decreases |text| - pos, more
      {
        ghost var at := pos - 1;
        var m;
        ok, m := ReadMember(first);
        if !ok { return; }
        MembersUnfold(text, at, members, m, pos);
        members := Insert(members, m.key, m.value);
        ok, more, first := ReadToNextMember();
        if !ok { return; }
      }
      ok := true;
    }

    /** What follows a member: the closing bracket, or a comma and the next first character. */
    method ReadToNextMember() returns (ok: bool, more: bool, first: char)
      requires Valid()
      modifies this
      ensures Valid() && (ok ==> old(pos) < pos && !fail) && (ok && more ==> first == text[pos - 1])
      ensures NextMember(text, old(pos)) == Outcome(ok, more, if more && pos > 0 then pos - 1 else pos)
    {
      first := ' ';
      ok, more := ReadSeparator('}');
      if ok && more {
        ok, first := ReadNonWsChar();
      }
    }

    method ReadMember(c: char) returns (ok: bool, m: Member)
      requires Valid() && 0 < pos && c == text[pos - 1]
      modifies this
      ensures Valid() && Outcome(ok, m, pos) == JsonText.ReadMember(text, old(pos) - 1)
      decreases |text| - pos + 1, 0
    {
      ok, m := false, Member("", Nil);
      if c != '"' { return; }
      var name, colon, v;
      ok, name := ReadStringToken();
      if !ok { return; }
      ok, colon := ReadNonWsChar();
      if !ok { return; }
      if colon != ':' { return false, m; }
      ok, v := ReadValue();
      m := Member(name, v);
    }
  }

  /** `JsonValue::fromString`; nothing is returned when it throws. */
  method FromString(source: string) returns (ok: bool, v: Json)
    ensures ok == JsonText.FromString(source).Done? && (ok ==> v == JsonText.FromString(source).value)
  {
    var stream := new Input(source);
    ok, v := stream.ReadValue();
    ok := ok && !stream.fail;
  }

  /** An output stream. */
  class Output {
    var text: string

    constructor ()
      ensures text == ""
    {
      text := "";
    }

    /** `operator<<`. */
    method Write(v: Json)
      requires NoReals(v)
      modifies this
      ensures text == old(text) + Print(v)
      decreases v, 1, 0
    {
      match v
      case Nil => text := text + "null";
      case Bool(b) => text := text + if b then "true" else "false";
      case Int(n) => text := text + PrintInt(n);
      case Str(s) => text := text + "\"" + s + "\"";
      case Arr(items) => WriteArray(v);
      case Obj(members) => WriteObject(v);
    }

    method WriteArray(v: Json)
      requires v.Arr? && NoReals(v)
      modifies this
      ensures text == old(text) + Print(v)
      decreases v, 0, 0
    {
      ghost var start, whole := text, Print(v);
      text := text + "[";
      if |v.items| > 0 {
        Write(v.items[0]);
        FirstItemWritten(start, v);
        for i := 1 to |v.items|
          invariant text + ItemsTail(v, i - 1) == start + whole
        {
          NextItemWritten(text, v, i);
          text := text + ",";
          Write(v.items[i]);
        }
      }
      text := text + "]";
    }

    method WriteObject(v: Json)
      requires v.Obj? && NoReals(v)
      modifies this
      ensures text == old(text) + Print(v)
      decreases v, 0, 1
    {
      ghost var start, whole := text, Print(v);
      text := text + "{";
      if |v.members| > 0 {
        WriteMember(v, 0);
        FirstWritten(start, v);
        for i := 1 to |v.members|
          invariant text + MembersTail(v, i - 1) == start + whole
        {
          NextWritten(text, v, i);
          text := text + ",";
          WriteMember(v, i);
        }
      }
      text := text + "}";
    }

    method WriteMember(v: Json, i: nat)
      requires v.Obj? && i < |v.members| && NoReals(v)
      modifies this
      ensures text == old(text) + PrintMember(v, i)
      decreases v, 0, 0
    {
      ghost var start := text;
      text := text + "\"" + v.members[i].key + "\":";
      KeyWritten(start, v.members[i].key, Print(v.members[i].value));
      Write(v.members[i].value);
    }
  }

  /** `JsonValue::toString`. */
  method ToString(v: Json) returns (s: string)
    requires NoReals(v)
    ensures s == Print(v)
  {
    var stream := new Output();
    stream.Write(v);
    s := stream.text;
  }

  // ------------------------------------------------------------------ regrouping of texts

  lemma Regroup(a: string, b: string, c: string, d: string)
    ensures a + b + c + d == a + (b + (c + d))
  {
  }

  lemma KeyWritten(start: string, key: string, value: string)
    ensures start + "\"" + key + "\":" + value == start + (Quoted(key) + (":" + value))
  {
    assert "\":" == "\"" + ":";
    Regroup(start, "\"", key, "\":");
    assert key + ("\"" + ":") == (key + "\"") + ":";
    Regroup(start, Quoted(key), ":", value);
    assert start + "\"" + key + "\":" == start + Quoted(key) + ":";
  }

  /** What follows item `i`. */
  ghost function ItemsTail(v: Json, i: nat): string
    requires v.Arr? && i < |v.items| && NoReals(v)
  {
    if i + 1 == |v.items| then "]" else "," + PrintItems(v, i + 1)
  }

  lemma FirstItemWritten(start: string, v: Json)
    requires v.Arr? && v.items != [] && NoReals(v)
    ensures start + "[" + Print(v.items[0]) + ItemsTail(v, 0) == start + Print(v)
  {
    assert PrintItems(v, 0) == Print(v.items[0]) + ItemsTail(v, 0);
    Regroup(start, "[", Print(v.items[0]), ItemsTail(v, 0));
  }

  lemma NextItemWritten(start: string, v: Json, i: nat)
    requires v.Arr? && 0 < i < |v.items| && NoReals(v)
    ensures start + "," + Print(v.items[i]) + ItemsTail(v, i) == start + ItemsTail(v, i - 1)
  {
    assert PrintItems(v, i) == Print(v.items[i]) + ItemsTail(v, i);
    Regroup(start, ",", Print(v.items[i]), ItemsTail(v, i));
  }

  ghost function PrintMember(v: Json, i: nat): string
    requires v.Obj? && i < |v.members| && NoReals(v)
  {
    Quoted(v.members[i].key) + (":" + Print(v.members[i].value))
  }

  lemma FirstWritten(start: string, v: Json)
    requires v.Obj? && v.members != [] && NoReals(v)
    ensures start + "{" + PrintMember(v, 0) + MembersTail(v, 0) == start + Print(v)
  {
    MemberFirst(v, 0);
    Regroup(start, "{", PrintMember(v, 0), MembersTail(v, 0));
  }

  lemma NextWritten(start: string, v: Json, i: nat)
    requires v.Obj? && 0 < i < |v.members| && NoReals(v)
    ensures start + "," + PrintMember(v, i) + MembersTail(v, i) == start + MembersTail(v, i - 1)
  {
    MemberFirst(v, i);
    Regroup(start, ",", PrintMember(v, i), MembersTail(v, i));
  }

  lemma MemberFirst(v: Json, i: nat)
    requires v.Obj? && i < |v.members| && NoReals(v)
    ensures PrintMembers(v, i) == PrintMember(v, i) + MembersTail(v, i)
  {
    var key, value, tail := Quoted(v.members[i].key), Print(v.members[i].value), MembersTail(v, i);
    assert key + (":" + (value + tail)) == key + (":" + value) + tail;
  }
}
