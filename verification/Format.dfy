/** The truncating formatter (src/lib/strings.c). */
module Formatting {
  import opened Words
  import opened Digits

  /** Characters up to a NUL, which ends them. */
  type CString = s: string | '\0' !in s

  /** A string argument may be a null pointer. */
  datatype StringPointer = Null | Chars(chars: CString)

  /** A character is passed as a number. */
  datatype Arg = Number(val: u32) | Text(str: StringPointer)

  // ---------- the text that a call stands for ----------

  function StringText(str: StringPointer): string {
    if str.Null? then "(null)" else str.chars
  }

  /** A word read as a 32-bit two's complement number. */
  function Signed(val: u32): int {
    if val < 0x8000_0000 then val else val - TWO_TO_THE_32
  }

  function SignedText(val: u32): string {
    if Signed(val) < 0 then "-" + Numeral(-Signed(val), 10) else Numeral(val, 10)
  }

  function PointerText(val: u32): string {
    "0x" + Numeral(val, 16)
  }

  predicate IsDigit(c: char) {
    '0' <= c <= '9'
  }

  function LeadingDigits(s: string): (k: nat)
    ensures k <= |s|
  {
    if s != "" && IsDigit(s[0]) then 1 + LeadingDigits(s[1..]) else 0
  }

  predicate TakesNumber(c: char) {
    c == 'u' || c == 'i' || c == 'x' || c == 'p' || c == 'b' || c == 'c'
  }

  predicate Takes(c: char) {
    TakesNumber(c) || c == 's'
  }

  /** A directive that is modelled, with an argument of its type. */
  predicate Typed(c: char, args: seq<Arg>) {
    (TakesNumber(c) ==> args != [] && args[0].Number?) && (c == 's' ==> args != [] && args[0].Text?) && c != 'f'
  }

  /** What a directive prints. */
  function Field(c: char, args: seq<Arg>): string
    requires Typed(c, args)
  {
    if c == 'u' then Numeral(args[0].val, 10)
    else if c == 'i' then SignedText(args[0].val)
    else if c == 'x' then Numeral(args[0].val, 16)
    else if c == 'p' then PointerText(args[0].val)
    else if c == 'b' then Numeral(args[0].val, 2)
    else if c == 's' then StringText(args[0].str)
    else if c == 'c' then [(args[0].val % 256) as char]
    else if c == '%' then "%"
    else ""
  }

  /** The next item of a format: a character, a precision without effect, or a directive. */
  function ItemLength(fmt: string): (k: nat)
    requires fmt != ""
    ensures k > 0 && (Modelled(fmt) ==> k <= |fmt|)
  {
    if fmt[0] != '%' || |fmt| == 1 then 1 else if fmt[1] == '.' then 2 + LeadingDigits(fmt[2..]) else 2
  }

  /** No floating-point directive and no percent sign at the end. */
  predicate Modelled(fmt: string)
    requires fmt != ""
  {
    fmt[0] == '%' ==>
      && |fmt| > 1 && fmt[1] != 'f'
      && (fmt[1] == '.' ==> var k := 2 + LeadingDigits(fmt[2..]); k < |fmt| ==> fmt[k] != 'f')
  }

  predicate IsDirective(fmt: string)
    requires fmt != ""
  {
    fmt[0] == '%' && |fmt| > 1 && fmt[1] != '.'
  }

  /** The arguments are those that the directives of the format ask for. */
  predicate Proper(fmt: string, args: seq<Arg>)
    decreases |fmt|
  {
    if fmt == "" then true
    else
      && Modelled(fmt) && (IsDirective(fmt) ==> Typed(fmt[1], args))
      && Proper(fmt[ItemLength(fmt)..], if IsDirective(fmt) && Takes(fmt[1]) then args[1..] else args)
  }

  /** The whole output. */
  function Output(fmt: string, args: seq<Arg>): string
    requires Proper(fmt, args)
    decreases |fmt|
  {
    if fmt == "" then ""
    else
      (if IsDirective(fmt) then Field(fmt[1], args) else if fmt[0] == '%' then "" else [fmt[0]])
      + Output(fmt[ItemLength(fmt)..], if IsDirective(fmt) && Takes(fmt[1]) then args[1..] else args)
  }

  // ---------- the text that comes out where there is room for `room` more characters ----------

  /** A directive for a character leaves its argument alone when there is no room. */
  predicate Reads(c: char, room: nat) {
    Takes(c) && (c == 'c' ==> room > 0)
  }

  predicate Known(c: char, args: seq<Arg>, room: nat) {
    Typed(c, args) || (c == 'c' && room == 0)
  }

  function Segment(c: char, args: seq<Arg>, room: nat): string
    requires Known(c, args, room)
  {
    if c == 'c' && room == 0 then "?" else Field(c, args)
  }

  function Rest(c: char, args: seq<Arg>, room: nat): seq<Arg>
    requires Known(c, args, room)
  {
    if Reads(c, room) then args[1..] else args
  }

  function Less(room: nat, n: nat): nat {
    if n < room then room - n else 0
  }

  predicate Supported(fmt: string, args: seq<Arg>, room: nat)
    decreases |fmt|
  {
    if fmt == "" then true
    else if !Modelled(fmt) then false
    else if IsDirective(fmt) then
      && Known(fmt[1], args, room)
      && Supported(fmt[2..], Rest(fmt[1], args, room), Less(room, |Segment(fmt[1], args, room)|))
    else Supported(fmt[ItemLength(fmt)..], args, if fmt[0] == '%' then room else Less(room, 1))
  }

  function Render(fmt: string, args: seq<Arg>, room: nat): string
    requires Supported(fmt, args, room)
    decreases |fmt|
  {
    if fmt == "" then ""
    else if IsDirective(fmt) then
      var segment := Segment(fmt[1], args, room);
      segment + Render(fmt[2..], Rest(fmt[1], args, room), Less(room, |segment|))
    else if fmt[0] == '%' then Render(fmt[ItemLength(fmt)..], args, room)
    else [fmt[0]] + Render(fmt[1..], args, Less(room, 1))
  }

  // ---------- fields decode back ----------

  lemma {:induction false} LowHasNoSign(val: nat, base: Base)
    ensures forall k :: 0 <= k < |Low(val, base)| ==> Low(val, base)[k] != '-'
  {
    hide Quotient;
    if val > 0 {
      LowHasNoSign(Quotient(val, base), base);
      NoSign(val % base);
    }
  }

  lemma NoSign(d: nat)
    requires d < 16
    ensures DigitChar(d) != '-'
  {
    DigitBack(d);
    assert DigitChar(d) in HEX_DIGITS;
  }

  function SignedValue(s: string): int {
    if s != "" && s[0] == '-' then (var v: int := Value(s[1..], 10); -v) else Value(s, 10)
  }

  /** Decimal, hexadecimal, binary and pointer fields decode to their arguments. */
  lemma FieldsDecode(val: u32)
    ensures Value(Field('u', [Number(val)]), 10) == val && Value(Field('x', [Number(val)]), 16) == val
    ensures Value(Field('b', [Number(val)]), 2) == val && Value(Field('p', [Number(val)])[2..], 16) == val
    ensures SignedValue(Field('i', [Number(val)])) == Signed(val)
  {
    hide Value, Numeral;
    NumeralDecodes(val, 10);
    NumeralDecodes(val, 16);
    NumeralDecodes(val, 2);
    assert PointerText(val)[2..] == Numeral(val, 16);
    if Signed(val) < 0 {
      NumeralDecodes(-Signed(val), 10);
      assert SignedText(val)[1..] == Numeral(-Signed(val), 10);
    } else {
      NumeralHasNoSign(val);
    }
  }

  lemma NumeralHasNoSign(val: u32)
    ensures Numeral(val, 10) != "" && Numeral(val, 10)[0] != '-'
  {
    LowHasNoSign(val, 10);
  }

  // ---------- what formats stand for ----------

  /** Texts are printed as they are, characters as the low bytes of their codes. */
  lemma TextsPrint(val: u32, t: CString)
    ensures Proper("%s", [Text(Chars(t))]) && Output("%s", [Text(Chars(t))]) == t
    ensures Proper("%s", [Text(Null)]) && Output("%s", [Text(Null)]) == "(null)"
    ensures Proper("%c", [Number(val)]) && Output("%c", [Number(val)]) == [(val % 256) as char]
    ensures Proper("%%", []) && Output("%%", []) == "%"
  {
    hide Proper, Output;
    OneDirective('s', [Text(Chars(t))]);
    OneDirective('s', [Text(Null)]);
    OneDirective('%', []);
    OneDirective('c', [Number(val)]);
  }

  /** Numbers are printed as the one numeral that decodes to them, behind 0x for pointers and behind a
      minus sign for negative numbers. */
  lemma NumbersPrint(val: u32)
    ensures Proper("%u", [Number(val)]) && Prints(Output("%u", [Number(val)]), val, 10)
    ensures Proper("%x", [Number(val)]) && Prints(Output("%x", [Number(val)]), val, 16)
    ensures Proper("%b", [Number(val)]) && Prints(Output("%b", [Number(val)]), val, 2)
    ensures Proper("%p", [Number(val)]) &&
      var s := Output("%p", [Number(val)]); |s| > 2 && s[0] == '0' && s[1] == 'x' && Prints(s[2..], val, 16)
    ensures Proper("%i", [Number(val)]) &&
      var s := Output("%i", [Number(val)]);
      if val < 0x8000_0000 then Prints(s, val, 10)
      else s != "" && s[0] == '-' && Prints(s[1..], 0x1_0000_0000 - val, 10)
  {
    hide Numeral, Prints, Proper, Output;
    OneDirective('u', [Number(val)]);
    OneDirective('x', [Number(val)]);
    OneDirective('b', [Number(val)]);
    OneDirective('p', [Number(val)]);
    OneDirective('i', [Number(val)]);
    NumeralPrints(val, 10);
    NumeralPrints(val, 16);
    NumeralPrints(val, 2);
    NumeralPrints(0x1_0000_0000 - val, 10);
    assert ("0x" + Numeral(val, 16))[2..] == Numeral(val, 16);
    assert ("-" + Numeral(0x1_0000_0000 - val, 10))[1..] == Numeral(0x1_0000_0000 - val, 10);
  }

  /** The text is the numeral of a number. */
  predicate Prints(s: string, val: nat, base: Base) {
    Value(s, base) == val && Canonical(s, base)
  }

  lemma NumeralPrints(val: nat, base: Base)
    ensures Prints(Numeral(val, base), val, base) && Numeral(val, base) != ""
  {
    hide Numeral, Value;
    NumeralDecodes(val, base);
    NumeralCanonical(val, base);
  }

  lemma OneDirective(c: char, args: seq<Arg>)
    requires c != 'f' && c != '.' && Typed(c, args)
    ensures Proper(['%', c], args) && Output(['%', c], args) == Field(c, args)
  {
    hide Numeral, Field;
    assert ['%', c][2..] == "";
    assert Output(['%', c], args) == Field(c, args) + Output("", if Takes(c) then args[1..] else args);
  }

  /** A character that is no directive prints nothing and takes no argument. */
  lemma UnknownDirective(c: char, args: seq<Arg>)
    requires c !in "uixpbcs%f."
    ensures Proper(['%', c], args) && Output(['%', c], args) == "" && Asked(['%', c]) == 0
  {
    OneDirective(c, args);
    assert ['%', c][2..] == "";
  }

  /** A precision, which only floating-point directives use, prints nothing, and ends where the digits
      do: what is behind it stands for itself. */
  lemma PrecisionPrints(digits: string, rest: string, args: seq<Arg>)
    requires forall k :: 0 <= k < |digits| ==> '0' <= digits[k] <= '9'
    requires rest != "" ==> rest[0] != 'f' && (rest[0] < '0' || '9' < rest[0])
    requires Proper(rest, args)
    ensures Proper("%." + digits + rest, args) && Output("%." + digits + rest, args) == Output(rest, args)
  {
    hide LeadingDigits, Proper, Output;
    var fmt := "%." + digits + rest;
    assert fmt[2..] == digits + rest;
    AllDigits(digits, rest);
    ItemIs(fmt);
    assert fmt[ItemLength(fmt)..] == rest;
    OutputSplit(fmt, args);
  }

  lemma {:induction false} AllDigits(s: string, rest: string)
    requires forall k :: 0 <= k < |s| ==> '0' <= s[k] <= '9'
    requires rest != "" ==> rest[0] < '0' || '9' < rest[0]
    ensures LeadingDigits(s + rest) == |s|
  {
    if s == "" {
      assert s + rest == rest;
    } else {
      assert (s + rest)[1..] == s[1..] + rest;
      AllDigits(s[1..], rest);
    }
  }

  /** Text without percent signs stands for itself. */
  lemma {:induction false} PlainText(fmt: string)
    requires '%' !in fmt
    ensures Proper(fmt, []) && Output(fmt, []) == fmt
    decreases |fmt|
  {
    if fmt != "" {
      PlainText(fmt[1..]);
      assert fmt == [fmt[0]] + fmt[1..];
    }
  }

  /** How many arguments a format takes. */
  function Asked(fmt: string): nat
    requires AllModelled(fmt)
    decreases |fmt|
  {
    if fmt == "" then 0
    else (if IsDirective(fmt) && Takes(fmt[1]) then 1 else 0) + Asked(fmt[ItemLength(fmt)..])
  }

  /** The format ends with a precision, to which digits behind it would belong. */
  predicate EndsOpen(fmt: string)
    requires AllModelled(fmt)
    decreases |fmt|
  {
    fmt != "" &&
    var k := ItemLength(fmt);
    if k == |fmt| then fmt[0] == '%' && fmt[1] == '.' else EndsOpen(fmt[k..])
  }

  /** What the first item of a format prints. */
  function Item(fmt: string, args: seq<Arg>): string
    requires fmt != "" && (IsDirective(fmt) ==> Typed(fmt[1], args))
  {
    if IsDirective(fmt) then Field(fmt[1], args) else if fmt[0] == '%' then "" else [fmt[0]]
  }

  lemma OutputSplit(fmt: string, args: seq<Arg>)
    requires fmt != "" && Modelled(fmt) && (IsDirective(fmt) ==> Typed(fmt[1], args))
    ensures var left := if IsDirective(fmt) && Takes(fmt[1]) then args[1..] else args;
      var rest := fmt[ItemLength(fmt)..];
      && (Proper(fmt, args) <==> Proper(rest, left))
      && (Proper(fmt, args) ==> Output(fmt, args) == Item(fmt, args) + Output(rest, left))
  {
    hide Field, Modelled;
  }

  lemma FirstItem(fmt: string, args: seq<Arg>)
    requires fmt != "" && Proper(fmt, args) && AllModelled(fmt)
    ensures Modelled(fmt) && AllModelled(fmt[ItemLength(fmt)..])
    ensures IsDirective(fmt) ==> |fmt| > 1 && Typed(fmt[1], args)
    ensures Asked(fmt) == (if IsDirective(fmt) && Takes(fmt[1]) then 1 else 0) + Asked(fmt[ItemLength(fmt)..])
    ensures EndsOpen(fmt[ItemLength(fmt)..]) ==> EndsOpen(fmt)
  {
    hide Modelled;
  }

  /** Two formats one after the other stand for their outputs one after the other. */
  lemma {:induction false} Joined(f: string, g: string, a: seq<Arg>, b: seq<Arg>)
    requires AllModelled(f) && Proper(f, a) && |a| == Asked(f) && Proper(g, b)
    requires EndsOpen(f) && g != "" ==> !IsDigit(g[0]) && g[0] != 'f'
    ensures Proper(f + g, a + b) && Output(f + g, a + b) == Output(f, a) + Output(g, b)
    decreases |f|
  {
    hide Field, Typed, Modelled, Proper, Output, AllModelled, Asked, EndsOpen, Item, ItemLength, IsDirective;
    if f == "" {
      NothingAsked(a);
      assert f + g == g && a + b == b;
    } else {
      var k := ItemLength(f);
      FirstItem(f, a);
      SameItem(f, g);
      assert (f + g)[k..] == f[k..] + g;
      var a' := if IsDirective(f) && Takes(f[1]) then a[1..] else a;
      if IsDirective(f) { SameArgument(f[1], a, b); }
      SameText(f, g, a, b);
      assert (if IsDirective(f) && Takes(f[1]) then (a + b)[1..] else a + b) == a' + b;
      OutputSplit(f, a);
      OutputSplit(f + g, a + b);
      Joined(f[k..], g, a', b);
    }
  }

  lemma NothingAsked(a: seq<Arg>)
    ensures AllModelled("") && Asked("") == 0 && Proper("", a) && Output("", a) == ""
  {
  }

  lemma SameText(f: string, g: string, a: seq<Arg>, b: seq<Arg>)
    requires f != "" && IsDirective(f + g) == IsDirective(f) && (IsDirective(f) ==> (f + g)[1] == f[1])
    requires IsDirective(f) ==> Typed(f[1], a) && Typed(f[1], a + b) && Field(f[1], a + b) == Field(f[1], a)
    ensures Item(f + g, a + b) == Item(f, a)
  {
    hide Field, Typed;
  }

  /** What follows a format does not change its first item. */
  lemma SameItem(f: string, g: string)
    requires f != "" && Modelled(f) && AllModelled(f) && (EndsOpen(f) && g != "" ==> !IsDigit(g[0]) && g[0] != 'f')
    ensures ItemLength(f + g) == ItemLength(f) <= |f| && Modelled(f + g)
    ensures IsDirective(f + g) == IsDirective(f) && (IsDirective(f) ==> (f + g)[1] == f[1])
  {
    hide AllModelled, EndsOpen, Modelled, ItemLength, LeadingDigits;
    if f[0] == '%' && |f| > 1 && f[1] == '.' {
      assert (f + g)[2..] == f[2..] + g;
      EndsHere(f);
      ItemIs(f);
      SameDigits(f[2..], g);
      ItemIs(f + g);
    } else {
      ItemIs(f);
      ItemIs(f + g);
    }
  }

  lemma ItemIs(fmt: string)
    requires fmt != ""
    ensures ItemLength(fmt) ==
      if fmt[0] != '%' || |fmt| == 1 then 1 else if fmt[1] == '.' then 2 + LeadingDigits(fmt[2..]) else 2
    ensures Modelled(fmt) <==>
      (fmt[0] == '%' ==>
         && |fmt| > 1 && fmt[1] != 'f'
         && (fmt[1] == '.' ==> ItemLength(fmt) < |fmt| ==> fmt[ItemLength(fmt)] != 'f'))
  {
    hide LeadingDigits;
  }

  lemma EndsHere(f: string)
    requires f != "" && AllModelled(f) && f[0] == '%' && |f| > 1 && f[1] == '.'
    ensures 2 + LeadingDigits(f[2..]) == |f| ==> EndsOpen(f)
  {
    hide LeadingDigits, AllModelled;
  }

  lemma {:induction false} SameDigits(s: string, g: string)
    requires LeadingDigits(s) < |s| || g == "" || !IsDigit(g[0])
    ensures LeadingDigits(s + g) == LeadingDigits(s)
  {
    if s == "" {
      assert s + g == g;
    } else {
      assert (s + g)[1..] == s[1..] + g;
      if IsDigit(s[0]) { SameDigits(s[1..], g); }
    }
  }

  lemma SameArgument(c: char, a: seq<Arg>, b: seq<Arg>)
    requires Typed(c, a)
    ensures Typed(c, a + b) && Field(c, a + b) == Field(c, a) && (Takes(c) ==> a != [])
  {
    hide Numeral;
  }

  // ---------- bounded writing ----------

  /** At most `n` characters of a text are put at position `pos`. */
  ghost function Placed(b: seq<char>, pos: nat, n: nat, text: string): (b': seq<char>)
    requires pos + n <= |b|
    ensures |b'| == |b|
  {
    var m := if |text| < n then |text| else n;
    b[..pos] + text[..m] + b[pos + m..]
  }

  lemma PlacedAt(b: seq<char>, pos: nat, n: nat, text: string)
    requires pos + n <= |b|
    ensures forall k :: 0 <= k < |b| ==>
              Placed(b, pos, n, text)[k] == if pos <= k < pos + n && k < pos + |text| then text[k - pos] else b[k]
  {
  }

  /** Two texts one after the other. */
  lemma PlacedJoin(b: seq<char>, pos: nat, n: nat, text: string, more: string)
    requires pos + n <= |b|
    ensures |text| <= n ==>
      Placed(Placed(b, pos, n, text), pos + |text|, n - |text|, more) == Placed(b, pos, n, text + more)
    ensures |text| >= n ==> Placed(b, pos, n, text) == Placed(b, pos, n, text + more)
  {
    hide Placed;
    var y := Placed(b, pos, n, text + more);
    PlacedAt(b, pos, n, text + more);
    PlacedAt(b, pos, n, text);
    if |text| <= n {
      var x := Placed(Placed(b, pos, n, text), pos + |text|, n - |text|, more);
      PlacedAt(Placed(b, pos, n, text), pos + |text|, n - |text|, more);
      forall k | 0 <= k < |b| ensures x[k] == y[k] {
      }
    }
    if |text| >= n {
      assert forall k :: 0 <= k < |b| ==> Placed(b, pos, n, text)[k] == y[k];
    }
  }

  /** `buffer[pos] = c`, if there is a buffer and room. */
  method PutChar(c: char, n: nat, buffer: array?<char>, pos: nat)
    requires buffer != null ==> pos + n <= buffer.Length
    modifies buffer
    ensures buffer != null ==> buffer[..] == Placed(old(buffer[..]), pos, n, [c])
  {
    if buffer != null && n > 0 {
      buffer[pos] := c;
    }
  }

  method SnprintString(str: StringPointer, n: nat, buffer: array?<char>, pos: nat) returns (len: nat)
    requires buffer != null ==> pos + n <= buffer.Length
    modifies buffer
    ensures len == |StringText(str)|
    ensures buffer != null ==> buffer[..] == Placed(old(buffer[..]), pos, n, StringText(str))
  {
    hide Placed;
    var s := if str.Null? then "(null)" else str.chars;
    len := 0;
    assert s[..0] == "";
    if buffer != null { PlacedNothing(buffer[..], pos, n); }
    while len < |s|
      invariant len <= |s| && (buffer != null ==> buffer[..] == Placed(old(buffer[..]), pos, n, s[..len]))
    {
      if buffer != null { PlacedNext(old(buffer[..]), pos, n, s, len); }
      if buffer != null && len < n {
        buffer[pos + len] := s[len];
      }
      len := len + 1;
    }
    assert s[..len] == s;
  }

  lemma PlacedNext(b: seq<char>, pos: nat, n: nat, s: string, i: nat)
    requires pos + n <= |b| && i < |s|
    ensures Placed(b, pos, n, s[..i + 1]) ==
      if i < n then Placed(b, pos, n, s[..i])[pos + i := s[i]] else Placed(b, pos, n, s[..i])
  {
    PlacedAt(b, pos, n, s[..i]);
    PlacedAt(b, pos, n, s[..i + 1]);
    var y := if i < n then Placed(b, pos, n, s[..i])[pos + i := s[i]] else Placed(b, pos, n, s[..i]);
    assert forall k :: 0 <= k < |b| ==> Placed(b, pos, n, s[..i + 1])[k] == y[k];
  }

  lemma OneMoreDigit(before: string, digit: char, rest: string)
    ensures before + [digit] + rest == before + ([digit] + rest)
  {
  }

  /** Fills the temporary buffer with digits, the lowest first. */
  method PutDigits(val: u32, base: Base, temp: array<char>) returns (i: nat)
    requires |Low(val, base)| <= temp.Length
    modifies temp
    ensures i == |Low(val, base)| && temp[..i] == Low(val, base) && temp[i..] == old(temp[i..])
  {
    hide Low, DigitChar, Quotient;
    i := 0;
    var v: nat := val;
    LowSplit(0, base);
    while v > 0
      invariant i + |Low(v, base)| == |Low(val, base)| && temp[..i] + Low(v, base) == Low(val, base)
      invariant temp[i..] == old(temp[i..])
      decreases v
    {
      LowSplit(v, base);
      ghost var before, rest := temp[..i], Low(Quotient(v, base), base);
      OneMoreDigit(before, DigitChar(v % base), rest);
      temp[i] := DigitChar(v % base);
      i := i + 1;
      v := Quotient(v, base);
      assert temp[..i] == before + [temp[i - 1]];
    }
  }

  /** Copies the temporary buffer backwards. */
  method CopyBack(temp: array<char>, count: nat, n: nat, buffer: array?<char>, pos: nat)
    requires count <= temp.Length && temp != buffer && (buffer != null ==> pos + n <= buffer.Length)
    modifies buffer
    ensures buffer != null ==> buffer[..] == Placed(old(buffer[..]), pos, n, Backwards(temp[..count]))
  {
    hide Placed;
    ghost var s := Backwards(temp[..count]);
    if buffer != null {
      var i, copied := count, 0;
      PlacedNothing(buffer[..], pos, n);
      while i > 0 && copied < n
        invariant i + copied == count && copied <= n && 0 <= i && 0 <= copied
        invariant buffer[..] == Placed(old(buffer[..]), pos, n, s[..copied])
        invariant temp[..count] == old(temp[..count])
        decreases i
      {
        PlacedNext(old(buffer[..]), pos, n, s, copied);
        i := i - 1;
        assert temp[..count][i] == temp[i];
        buffer[pos + copied] := temp[i];
        copied := copied + 1;
      }
      assert s[..copied] + s[copied..] == s && (i == 0 ==> s[..copied] == s);
      PlacedJoin(old(buffer[..]), pos, n, s[..copied], s[copied..]);
    }
  }

  method SnprintHex(val: u32, n: nat, buffer: array?<char>, pos: nat) returns (len: nat)
    requires buffer != null ==> pos + n <= buffer.Length
    modifies buffer
    ensures len == |Numeral(val, 16)|
    ensures buffer != null ==> buffer[..] == Placed(old(buffer[..]), pos, n, Numeral(val, 16))
  {
    hide Placed, Low;
    if val == 0 {
      PutChar('0', n, buffer, pos);
      return 1;
    }
    WordLength(val);
    var temp := new char[8];
    var i := PutDigits(val, 16, temp);
    len := i;
    CopyBack(temp, i, n, buffer, pos);
  }

  method SnprintBin(val: u32, n: nat, buffer: array?<char>, pos: nat) returns (len: nat)
    requires buffer != null ==> pos + n <= buffer.Length
    modifies buffer
    ensures len == |Numeral(val, 2)|
    ensures buffer != null ==> buffer[..] == Placed(old(buffer[..]), pos, n, Numeral(val, 2))
  {
    hide Placed, Low;
    if val == 0 {
      PutChar('0', n, buffer, pos);
      return 1;
    }
    WordLength(val);
    var temp := new char[32];
    var i := PutDigits(val, 2, temp);
    len := i;
    CopyBack(temp, i, n, buffer, pos);
  }

  method SnprintPtr(val: u32, n: nat, buffer: array?<char>, pos: nat) returns (len: nat)
    requires buffer != null ==> pos + n <= buffer.Length
    modifies buffer
    ensures len == |PointerText(val)|
    ensures buffer != null ==> buffer[..] == Placed(old(buffer[..]), pos, n, PointerText(val))
  {
    hide Placed, Low, Numeral;
    var hexLen := SnprintHex(val, 0xFFFF_FFFF, null, 0);
    len := 2 + hexLen;
    if buffer != null {
      ghost var b, hex := buffer[..], Numeral(val, 16);
      PlacedJoin(b, pos, n, "0", "x");
      PlacedJoin(b, pos, n, "0x", hex);
      assert "0" + "x" == "0x";
      var written := 0;
      PutChar('0', n, buffer, pos);
      if written < n {
        written := written + 1;
      }
      PutChar('x', n - written, buffer, pos + written);
      if written < n {
        written := written + 1;
      }
      if n > written {
        var more := SnprintHex(val, n - written, buffer, pos + written);
      }
      if n < 2 { PlacedNone(b, pos, n); }
    }
  }

  lemma PlacedNone(b: seq<char>, pos: nat, n: nat)
    requires pos + n <= |b|
    ensures n == 0 ==> forall text :: Placed(b, pos, n, text) == b
  {
  }

  lemma BackwardsSnoc(s: string, c: char)
    ensures Backwards(s + [c]) == [c] + Backwards(s)
  {
  }

  /** The digits of a decimal number, at least one, in the temporary buffer. */
  method PutDecimal(v: u32, temp: array<char>) returns (i: nat)
    requires temp.Length == 12
    modifies temp
    ensures 0 < i <= 10 && Backwards(temp[..i]) == Numeral(v, 10)
  {
    hide Low;
    if v == 0 {
      temp[0] := '0';
      i := 1;
      assert temp[..1] == "0" && Backwards("0") == "0";
    } else {
      WordLength(v);
      i := PutDigits(v, 10, temp);
      SomeDigit(v);
    }
  }

  lemma SomeDigit(v: nat)
    requires v > 0
    ensures |Low(v, 10)| > 0
  {
  }

  method SnprintInt(val: u32, isSigned: bool, n: nat, buffer: array?<char>, pos: nat) returns (len: nat)
    requires buffer != null ==> pos + n <= buffer.Length
    modifies buffer
    ensures var text := if isSigned then SignedText(val) else Numeral(val, 10);
      len == |text| && (buffer != null ==> buffer[..] == Placed(old(buffer[..]), pos, n, text))
  {
    hide Placed, Low, Numeral, Backwards;
    var temp := new char[12];
    var negative := isSigned && Signed(val) < 0;
    var i := PutDecimal(if negative then -Signed(val) else val, temp);
    if negative {
      ghost var digits := temp[..i];
      BackwardsSnoc(digits, '-');
      temp[i] := '-';
      i := i + 1;
      assert temp[..i] == digits + ['-'];
    }
    len := i;
    CopyBack(temp, i, n, buffer, pos);
  }

  /** The room that a buffer, if there is one, leaves for `n` characters. */
  function Room(buffer: array?<char>, n: nat): nat {
    if buffer == null then 0 else n
  }

  /** The `switch` on the character behind a percent sign. */
  method PrintDirective(c: char, args: seq<Arg>, n: nat, buffer: array?<char>, pos: nat) returns (len: nat)
    requires Known(c, args, Room(buffer, n)) && (buffer != null ==> pos + n <= buffer.Length)
    modifies buffer
    ensures len == |Segment(c, args, Room(buffer, n))|
    ensures buffer != null ==>
      buffer[..] == Placed(old(buffer[..]), pos, n, Segment(c, args, Room(buffer, n)))
  {
    hide Numeral, SignedText, PointerText, Placed;
    match c
    case 'u' => len := SnprintInt(args[0].val, false, n, buffer, pos);
    case 'i' => len := SnprintInt(args[0].val, true, n, buffer, pos);
    case 'x' => len := SnprintHex(args[0].val, n, buffer, pos);
    case 'p' => len := SnprintPtr(args[0].val, n, buffer, pos);
    case 'b' => len := SnprintBin(args[0].val, n, buffer, pos);
    case 's' => len := SnprintString(args[0].str, n, buffer, pos);
    case 'c' =>
      if buffer != null && n > 0 {
        PutChar((args[0].val % 256) as char, n, buffer, pos);
      } else if buffer != null {
        PlacedNone(buffer[..], pos, n);
      }
      len := 1;
    case '%' =>
      PutChar('%', n, buffer, pos);
      len := 1;
    case _ =>
      if buffer != null { PlacedNothing(buffer[..], pos, n); }
      len := 0;
  }

  lemma PlacedNothing(b: seq<char>, pos: nat, n: nat)
    requires pos + n <= |b|
    ensures Placed(b, pos, n, "") == b
  {
  }

  /** The format from position `i` on. */
  lemma RenderAt(fmt: string, args: seq<Arg>, room: nat, i: nat)
    requires i < |fmt| && Supported(fmt[i..], args, room)
    ensures fmt[i] != '%' ==>
      && Supported(fmt[i + 1..], args, Less(room, 1))
      && Render(fmt[i..], args, room) == [fmt[i]] + Render(fmt[i + 1..], args, Less(room, 1))
    ensures fmt[i] == '%' ==> i + 1 < |fmt|
    ensures fmt[i] == '%' && fmt[i + 1] == '.' ==>
      var j := i + 2 + LeadingDigits(fmt[i + 2..]);
      j <= |fmt| && Supported(fmt[j..], args, room) && Render(fmt[i..], args, room) == Render(fmt[j..], args, room)
    ensures fmt[i] == '%' && fmt[i + 1] != '.' ==>
      && Known(fmt[i + 1], args, room)
      && var segment, rest := Segment(fmt[i + 1], args, room), Rest(fmt[i + 1], args, room);
         && Supported(fmt[i + 2..], rest, Less(room, |segment|))
         && Render(fmt[i..], args, room) == segment + Render(fmt[i + 2..], rest, Less(room, |segment|))
  {
    hide Known, Segment, Rest, Less;
    var f := fmt[i..];
    assert f[1..] == fmt[i + 1..];
    if |f| > 1 {
      assert f[2..] == fmt[i + 2..];
      if f[0] == '%' && f[1] == '.' {
        var k := LeadingDigits(f[2..]);
        assert f[2 + k..] == fmt[i + 2 + k..];
      }
    }
  }

  /** One round of the loop: a character or a directive. */
  method PrintNext(fmt: string, i0: nat, args0: seq<Arg>, n: nat, buffer: array?<char>, pos: nat)
    returns (i: nat, args: seq<Arg>, len: nat, ghost segment: string)
    requires i0 < |fmt| && Supported(fmt[i0..], args0, Room(buffer, n))
    requires buffer != null ==> pos + n <= buffer.Length
    modifies buffer
    ensures i0 < i <= |fmt| && Supported(fmt[i..], args, Less(Room(buffer, n), |segment|))
    ensures Render(fmt[i0..], args0, Room(buffer, n)) ==
      segment + Render(fmt[i..], args, Less(Room(buffer, n), |segment|))
    ensures len == |segment| && (buffer != null ==> buffer[..] == Placed(old(buffer[..]), pos, n, segment))
  {
    hide Placed, Segment, Known, Supported, Render, LeadingDigits, Rest;
    RenderAt(fmt, args0, Room(buffer, n), i0);
    i, args := i0, args0;
    if fmt[i] == '%' {
      i := i + 1;
      if fmt[i] == '.' {
        i := i + LeadingDigits(fmt[i + 1..]);
        len, segment := 0, "";
        if buffer != null { PlacedNothing(buffer[..], pos, n); }
      } else {
        segment := Segment(fmt[i], args, Room(buffer, n));
        len := PrintDirective(fmt[i], args, n, buffer, pos);
        args := Rest(fmt[i], args, Room(buffer, n));
      }
    } else {
      PutChar(fmt[i], n, buffer, pos);
      len, segment := 1, [fmt[i]];
    }
    i := i + 1;
  }

  /** Formats into a buffer of `n` characters. The result is the length of the whole output; the
      buffer gets as much of the output as it can hold, and a NUL. */
  method Vsnprintf(buffer: array?<char>, n: u32, fmt: CString, args: seq<Arg>) returns (length: nat)
    requires Supported(fmt, args, Room(buffer, Less(n, 1))) && (buffer != null ==> n <= buffer.Length)
    modifies buffer
    ensures length == |Render(fmt, args, Room(buffer, Less(n, 1)))|
    ensures buffer != null && n > 0 ==>
      var m := if length < n - 1 then length else n - 1;
      && buffer[..m] == Render(fmt, args, Room(buffer, Less(n, 1)))[..m]
      && buffer[m] == '\0' && buffer[m + 1..] == old(buffer[m + 1..])
    ensures buffer != null && n == 0 ==> buffer[..] == old(buffer[..])
    ensures Proper(fmt, args) && AllModelled(fmt) && CharsLast(fmt) ==>
      && length == |Output(fmt, args)|
      && (buffer != null && n > 0 ==>
            var m := if length < n - 1 then length else n - 1; buffer[..m] == Output(fmt, args)[..m])
  {
    hide Placed, Segment, Known, Supported, Render, Proper, AllModelled, CharsLast, Output;
    var limit := if n != 0 then n - 1 else 0;
    ghost var room := Room(buffer, limit);
    var i := 0;
    var left := args;
    length := 0;
    ghost var text := "";
    assert fmt[0..] == fmt;
    if buffer != null { PlacedNothing(buffer[..], 0, limit); }
    while i < |fmt|
      invariant 0 <= i <= |fmt| && length == |text| && Supported(fmt[i..], left, Less(room, length))
      invariant Render(fmt, args, room) == text + Render(fmt[i..], left, Less(room, length))
      invariant buffer != null ==> buffer[..] == Placed(old(buffer[..]), 0, limit, text)
      decreases |fmt| - i
    {
      var remaining := if length > limit then 0 else limit - length;
      var current := if length >= limit then null else buffer;
      var len;
      ghost var segment;
      assert Room(current, remaining) == Less(room, length);
      i, left, len, segment := PrintNext(fmt, i, left, remaining, current, length);
      if buffer != null { PlacedJoin(old(buffer[..]), 0, limit, text, segment); }
      text := text + segment;
      length := length + len;
    }
    assert fmt[i..] == "";
    RenderEnd(left, Less(room, length));
    if Proper(fmt, args) && AllModelled(fmt) && CharsLast(fmt) {
      CharsLastFaithful(fmt, args, room);
    }
    if buffer != null && n > 0 {
      var final := if length < limit then length else limit;
      Terminated(old(buffer[..]), limit, text, final);
      buffer[final] := '\0';
    } else if buffer != null {
      PlacedNone(old(buffer[..]), 0, 0);
    }
  }

  lemma RenderEnd(args: seq<Arg>, room: nat)
    ensures Supported("", args, room) && Render("", args, room) == ""
  {
  }

  lemma Terminated(b: seq<char>, limit: nat, text: string, final: nat)
    requires limit < |b| && final == if |text| < limit then |text| else limit
    ensures var b' := Placed(b, 0, limit, text)[final := '\0'];
      b'[..final] == text[..final] && b'[final + 1..] == b[final + 1..]
  {
  }

  // ---------- when the result depends on the buffer ----------

  predicate AllModelled(fmt: string)
    decreases |fmt|
  {
    fmt == "" || (Modelled(fmt) && AllModelled(fmt[ItemLength(fmt)..]))
  }

  /** Directives that take an argument in any case. */
  function Others(fmt: string): nat
    requires AllModelled(fmt)
    decreases |fmt|
  {
    if fmt == "" then 0
    else (if IsDirective(fmt) && Takes(fmt[1]) && fmt[1] != 'c' then 1 else 0) + Others(fmt[ItemLength(fmt)..])
  }

  /** Behind a directive for a character no other one takes an argument. */
  predicate CharsLast(fmt: string)
    requires AllModelled(fmt)
    decreases |fmt|
  {
    if fmt == "" then true
    else if IsDirective(fmt) && fmt[1] == 'c' then Others(fmt[ItemLength(fmt)..]) == 0
    else CharsLast(fmt[ItemLength(fmt)..])
  }

  lemma {:induction false} ProperModelled(fmt: string, args: seq<Arg>)
    requires Proper(fmt, args)
    ensures AllModelled(fmt)
    decreases |fmt|
  {
    hide Modelled;
    if fmt != "" {
      ProperModelled(fmt[ItemLength(fmt)..], if IsDirective(fmt) && Takes(fmt[1]) then args[1..] else args);
    }
  }

  lemma {:induction false} NoOthersLast(fmt: string)
    requires AllModelled(fmt) && Others(fmt) == 0
    ensures CharsLast(fmt)
    decreases |fmt|
  {
    hide Modelled;
    if fmt != "" { NoOthersLast(fmt[ItemLength(fmt)..]); }
  }

  /** Where there is room for `room` characters, the output comes out. */
  ghost predicate Faithful(fmt: string, args: seq<Arg>, room: nat)
    requires Proper(fmt, args)
  {
    Supported(fmt, args, room) && SameUpTo(Render(fmt, args, room), Output(fmt, args), room)
  }

  ghost predicate SameUpTo(a: string, b: string, room: nat) {
    |a| == |b| && forall k :: 0 <= k < |a| && k < room ==> a[k] == b[k]
  }

  lemma SameJoined(s: string, a: string, b: string, room: nat)
    requires SameUpTo(a, b, Less(room, |s|))
    ensures SameUpTo(s + a, s + b, room)
  {
  }

  /** Without room, directives for characters do not look at arguments. */
  lemma {:induction false} OnlyChars(fmt: string, args: seq<Arg>, any: seq<Arg>)
    requires Proper(fmt, args) && AllModelled(fmt) && Others(fmt) == 0
    ensures Supported(fmt, any, 0) && |Render(fmt, any, 0)| == |Output(fmt, args)|
    decreases |fmt|
  {
    hide Modelled;
    if fmt != "" {
      OnlyChars(fmt[ItemLength(fmt)..], if IsDirective(fmt) && Takes(fmt[1]) then args[1..] else args, any);
    }
  }

  /** If directives for characters come last, the output does not depend on the buffer. */
  lemma {:induction false} CharsLastFaithful(fmt: string, args: seq<Arg>, room: nat)
    requires Proper(fmt, args) && AllModelled(fmt) && CharsLast(fmt)
    ensures Faithful(fmt, args, room)
    decreases |fmt|
  {
    hide Modelled, Field, Faithful, Less;
    if fmt == "" {
      EmptyFaithful(args, room);
    } else if !IsDirective(fmt) {
      CharsLastFaithful(fmt[ItemLength(fmt)..], args, if fmt[0] == '%' then room else Less(room, 1));
      PlainFaithful(fmt, args, room);
    } else if fmt[1] == 'c' && room == 0 {
      OnlyChars(fmt[2..], args[1..], args);
      CharFaithful(fmt, args);
    } else {
      if fmt[1] == 'c' { NoOthersLast(fmt[2..]); }
      var left := if Takes(fmt[1]) then args[1..] else args;
      CharsLastFaithful(fmt[2..], left, Less(room, |Field(fmt[1], args)|));
      FieldFaithful(fmt, args, room);
    }
  }

  lemma EmptyFaithful(args: seq<Arg>, room: nat)
    ensures Faithful("", args, room)
  {
  }

  lemma PlainFaithful(fmt: string, args: seq<Arg>, room: nat)
    requires fmt != "" && !IsDirective(fmt) && Proper(fmt, args)
    requires Faithful(fmt[ItemLength(fmt)..], args, if fmt[0] == '%' then room else Less(room, 1))
    ensures Faithful(fmt, args, room)
  {
    hide Field, SameUpTo, LeadingDigits;
    var rest := fmt[ItemLength(fmt)..];
    assert fmt[0] == '%' ==> Output(fmt, args) == "" + Output(rest, args) == Output(rest, args);
    if fmt[0] != '%' { SameJoined([fmt[0]], Render(rest, args, Less(room, 1)), Output(rest, args), room); }
  }

  lemma CharFaithful(fmt: string, args: seq<Arg>)
    requires Proper(fmt, args) && fmt != "" && IsDirective(fmt) && fmt[1] == 'c'
    requires Supported(fmt[2..], args, 0) && |Render(fmt[2..], args, 0)| == |Output(fmt[2..], args[1..])|
    ensures Faithful(fmt, args, 0)
  {
    hide LeadingDigits;
  }

  lemma FieldFaithful(fmt: string, args: seq<Arg>, room: nat)
    requires Proper(fmt, args) && fmt != "" && IsDirective(fmt) && !(fmt[1] == 'c' && room == 0)
    requires Faithful(fmt[2..], if Takes(fmt[1]) then args[1..] else args, Less(room, |Field(fmt[1], args)|))
    ensures Faithful(fmt, args, room)
  {
    hide Field, SameUpTo, LeadingDigits, Less;
    var left, field := if Takes(fmt[1]) then args[1..] else args, Field(fmt[1], args);
    SameJoined(field, Render(fmt[2..], left, Less(room, |field|)), Output(fmt[2..], left), room);
  }

  /** The position of the argument of the last other directive. */
  function LastOther(fmt: string): nat
    requires AllModelled(fmt) && Others(fmt) > 0
    decreases |fmt|
  {
    var rest := fmt[ItemLength(fmt)..];
    if Others(rest) > 0 then (if IsDirective(fmt) && Takes(fmt[1]) then 1 else 0) + LastOther(rest) else 0
  }

  lemma {:induction false} LastIsLater(fmt: string)
    requires AllModelled(fmt) && Others(fmt) > 0
    ensures LastOther(fmt) >= Others(fmt) - 1
    ensures !CharsLast(fmt) ==> LastOther(fmt) >= Others(fmt)
    decreases |fmt|
  {
    hide Modelled;
    var rest := fmt[ItemLength(fmt)..];
    if Others(rest) > 0 { LastIsLater(rest); } else { NoOthersLast(rest); }
  }

  /** Without room only as many arguments are read as there are other directives. */
  lemma {:induction false} ReadsFew(fmt: string, a: seq<Arg>, b: seq<Arg>)
    requires AllModelled(fmt) && Supported(fmt, a, 0) && Supported(fmt, b, 0)
    requires |a| >= Others(fmt) && |b| >= Others(fmt) && a[..Others(fmt)] == b[..Others(fmt)]
    ensures |Render(fmt, a, 0)| == |Render(fmt, b, 0)|
    decreases |fmt|
  {
    hide Modelled, Numeral, SignedText, PointerText, StringText;
    if fmt != "" {
      var rest := fmt[ItemLength(fmt)..];
      if IsDirective(fmt) && Reads(fmt[1], 0) {
        var n := Others(rest);
        assert a[0] == a[..n + 1][0] && b[0] == b[..n + 1][0];
        assert a[1..][..n] == a[..n + 1][1..] && b[1..][..n] == b[..n + 1][1..];
        ReadsFew(rest, a[1..], b[1..]);
      } else {
        ReadsFew(rest, a, b);
      }
    }
  }

  /** An argument for a directive, and another one that prints longer. */
  function ShortArg(c: char): Arg {
    if c == 's' then Text(Chars("")) else Number(0)
  }

  function LongArg(c: char): Arg {
    if c == 's' then Text(Chars("0")) else Number(if c == 'b' then 2 else if c == 'u' || c == 'i' then 10 else 16)
  }

  lemma LongPrintsLonger(c: char, rest: seq<Arg>)
    requires Takes(c)
    ensures Typed(c, [ShortArg(c)] + rest)
    ensures c != 'c' ==>
      Typed(c, [LongArg(c)] + rest) && |Field(c, [LongArg(c)] + rest)| > |Field(c, [ShortArg(c)] + rest)|
  {
    hide Numeral;
    TwoDigits(2);
    TwoDigits(10);
    TwoDigits(16);
  }

  lemma TwoDigits(base: Base)
    ensures |Numeral(base, base)| == 2 && |Numeral(0, base)| == 1
  {
    assert Quotient(base, base) == 1 && Quotient(1, base) == 0;
    assert |Low(0, base)| == 0;
    assert |Low(1, base)| == 1;
    assert |Low(base, base)| == 2;
  }

  lemma {:induction false} SomeArgs(fmt: string) returns (args: seq<Arg>)
    requires AllModelled(fmt)
    ensures Proper(fmt, args)
    decreases |fmt|
  {
    hide ShortArg, LeadingDigits, Field;
    args := [];
    if fmt != "" {
      args := SomeArgs(fmt[ItemLength(fmt)..]);
      if IsDirective(fmt) && Takes(fmt[1]) {
        LongPrintsLonger(fmt[1], args);
        assert ([ShortArg(fmt[1])] + args)[1..] == args;
        args := [ShortArg(fmt[1])] + args;
      }
    }
  }

  /** Arguments that differ from the last other directive on, and the length of the output with them. */
  predicate Differ(fmt: string, a: seq<Arg>, b: seq<Arg>)
    requires AllModelled(fmt) && Others(fmt) > 0
  {
    && Proper(fmt, a) && Proper(fmt, b) && |Output(fmt, a)| != |Output(fmt, b)|
    && LastOther(fmt) <= |a| && LastOther(fmt) <= |b| && a[..LastOther(fmt)] == b[..LastOther(fmt)]
  }

  lemma {:induction false} TwoOutputs(fmt: string) returns (a: seq<Arg>, b: seq<Arg>)
    requires AllModelled(fmt) && Others(fmt) > 0
    ensures Differ(fmt, a, b)
    decreases |fmt|
  {
    hide Modelled, ShortArg, LongArg, Field, Differ, Output, Proper, LastOther;
    var rest, c := fmt[ItemLength(fmt)..], if IsDirective(fmt) then fmt[1] else ' ';
    if Others(rest) > 0 {
      a, b := TwoOutputs(rest);
      if Takes(c) {
        DifferBehind(fmt, a, b);
        a, b := [ShortArg(c)] + a, [ShortArg(c)] + b;
      } else {
        SameRest(fmt, a, b);
      }
    } else {
      var args := SomeArgs(rest);
      DifferHere(fmt, args);
      a, b := [ShortArg(c)] + args, [LongArg(c)] + args;
    }
  }

  /** A directive in front of those that differ gets the same argument. */
  lemma DifferBehind(fmt: string, a: seq<Arg>, b: seq<Arg>)
    requires AllModelled(fmt) && fmt != "" && IsDirective(fmt) && Takes(fmt[1])
    requires Others(fmt[ItemLength(fmt)..]) > 0 && Differ(fmt[ItemLength(fmt)..], a, b)
    ensures Others(fmt) > 0 && Differ(fmt, [ShortArg(fmt[1])] + a, [ShortArg(fmt[1])] + b)
  {
    hide Modelled, ShortArg, Field, Typed, Output, Proper;
    var c, rest := fmt[1], fmt[ItemLength(fmt)..];
    LongPrintsLonger(c, a);
    LongPrintsLonger(c, b);
    SameField(c, ShortArg(c), a, b);
    PrefixOutput(fmt, ShortArg(c), a);
    PrefixOutput(fmt, ShortArg(c), b);
    var n := LastOther(rest);
    assert ([ShortArg(c)] + a)[..n + 1] == [ShortArg(c)] + a[..n];
    assert ([ShortArg(c)] + b)[..n + 1] == [ShortArg(c)] + b[..n];
  }

  /** The last other directive gets two arguments of different length. */
  lemma DifferHere(fmt: string, args: seq<Arg>)
    requires AllModelled(fmt) && fmt != "" && Others(fmt) > 0 && Others(fmt[ItemLength(fmt)..]) == 0
    requires Proper(fmt[ItemLength(fmt)..], args)
    ensures IsDirective(fmt) && Differ(fmt, [ShortArg(fmt[1])] + args, [LongArg(fmt[1])] + args)
  {
    hide Modelled, ShortArg, LongArg, Field, Typed, Output, Proper;
    var c := fmt[1];
    LongPrintsLonger(c, args);
    PrefixOutput(fmt, ShortArg(c), args);
    PrefixOutput(fmt, LongArg(c), args);
  }

  /** The output of a format that begins with a directive for `x`. */
  lemma PrefixOutput(fmt: string, x: Arg, args: seq<Arg>)
    requires AllModelled(fmt) && fmt != "" && IsDirective(fmt) && Takes(fmt[1])
    requires Typed(fmt[1], [x] + args) && Proper(fmt[ItemLength(fmt)..], args)
    ensures Proper(fmt, [x] + args)
    ensures Output(fmt, [x] + args) == Field(fmt[1], [x] + args) + Output(fmt[ItemLength(fmt)..], args)
  {
    hide Modelled, Field, Typed;
    assert ([x] + args)[1..] == args;
  }

  lemma SameRest(fmt: string, a: seq<Arg>, b: seq<Arg>)
    requires AllModelled(fmt) && fmt != "" && !(IsDirective(fmt) && Takes(fmt[1]))
    requires Others(fmt[ItemLength(fmt)..]) > 0 && Differ(fmt[ItemLength(fmt)..], a, b)
    ensures Others(fmt) > 0 && Differ(fmt, a, b)
  {
    hide Numeral;
  }

  lemma SameField(c: char, x: Arg, a: seq<Arg>, b: seq<Arg>)
    requires Typed(c, [x] + a) && Typed(c, [x] + b)
    ensures Field(c, [x] + a) == Field(c, [x] + b)
  {
    hide Numeral;
  }

  /** The output of a format is the same for every buffer, as far as it fits, if and only if behind a
      directive for a character no other one takes an argument: a character that does not fit leaves
      its argument to the directives behind it. */
  lemma OutputFixed(fmt: string)
    requires AllModelled(fmt)
    ensures CharsLast(fmt) <==> forall args, room :: Proper(fmt, args) ==> Faithful(fmt, args, room)
  {
    if CharsLast(fmt) {
      forall args, room | Proper(fmt, args) ensures Faithful(fmt, args, room) {
        CharsLastFaithful(fmt, args, room);
      }
    } else {
      var args := Misread(fmt);
    }
  }

  lemma Misread(fmt: string) returns (args: seq<Arg>)
    requires AllModelled(fmt) && !CharsLast(fmt)
    ensures Proper(fmt, args) && !Faithful(fmt, args, 0)
  {
    if Others(fmt) == 0 { NoOthersLast(fmt); }
    var a, b := TwoOutputs(fmt);
    LastIsLater(fmt);
    args := if Faithful(fmt, a, 0) then b else a;
    if Faithful(fmt, a, 0) && Faithful(fmt, b, 0) {
      var n, m := Others(fmt), LastOther(fmt);
      assert a[..n] == a[..m][..n] && b[..n] == b[..m][..n];
      ReadsFew(fmt, a, b);
    }
  }

  /** Asked for the length alone, the kernel takes the code of the character for the number behind it. */
  lemma CharThenNumber()
    ensures Proper("%c%u", [Number(65), Number(5)]) && |Output("%c%u", [Number(65), Number(5)])| == 2
    ensures Supported("%c%u", [Number(65), Number(5)], 0) && |Render("%c%u", [Number(65), Number(5)], 0)| == 3
  {
    hide Numeral, Low;
    var fmt, args := "%c%u", [Number(65), Number(5)];
    assert fmt[2..] == "%u" && "%u"[2..] == "" && args[1..] == [Number(5)];
    OneDigit();
    assert Proper("%u", [Number(5)]) && |Output("%u", [Number(5)])| == 1;
    assert Supported("%u", args, 0) && |Render("%u", args, 0)| == 2;
  }

  lemma OneDigit()
    ensures |Numeral(5, 10)| == 1 && |Numeral(65, 10)| == 2
  {
    assert |Low(0, 10)| == 0;
    assert |Low(6, 10)| == 1;
  }
}
