// The terminal-input utilities of getInput.c. C strings are modelled as
// sequences of characters that hold a NUL somewhere: the string is what
// comes before the first NUL. Characters are unsigned, as `char` is on the
// Cortex-M4 target.

module GetInput {
  import opened Machine

  const MaxChars := 80
  const MaxFields := 5
  const Nul: char := '\0'

  // ---------------------------------------------------------------------
  // C strings
  // ---------------------------------------------------------------------

  /** The length of the C string at the start of s: the index of its first NUL. */
  function CLength(s: seq<char>): (n: nat)
    requires Nul in s
    ensures n < |s| && s[n] == Nul
    ensures forall j :: 0 <= j < n ==> s[j] != Nul
  {
    NulFrom(s, 0)
  }

  /** The index of the first NUL of s, searching from i with no NUL before i. */
  function NulFrom(s: seq<char>, i: nat): (n: nat)
    requires Nul in s && i <= |s| && forall j :: 0 <= j < i ==> s[j] != Nul
    ensures i <= n < |s| && s[n] == Nul
    ensures forall j :: 0 <= j < n ==> s[j] != Nul
    decreases |s| - i
  {
    assert i < |s| by {
      var k :| 0 <= k < |s| && s[k] == Nul;
    }
    if s[i] == Nul then i else NulFrom(s, i + 1)
  }

  /** The C string at the start of s, without its NUL. */
  function CStr(s: seq<char>): (r: seq<char>)
    requires Nul in s
    ensures Nul !in r && |r| < |s| && s[..|r| + 1] == r + [Nul]
  {
    s[..CLength(s)]
  }

  /** A non-empty C string is its first character followed by the C string after it. */
  lemma CStrCons(x: seq<char>)
    requires Nul in x && x[0] != Nul
    ensures Nul in x[1..] && CStr(x) == [x[0]] + CStr(x[1..])
  {
    assert x[1..][..CLength(x[1..])] == x[1..CLength(x)];
  }

  // ---------------------------------------------------------------------
  // cmpStr
  // ---------------------------------------------------------------------

  /**
   * The loop of cmpStr from position i, where the two strings agree on
   * every position before i: the difference of the characters where they
   * first differ or one of them ends.
   */
  function CmpFrom(a: seq<char>, b: seq<char>, i: nat): (r: int)
    requires Nul in a && Nul in b
    requires i <= CLength(a) && i <= CLength(b) && a[..i] == b[..i]
    ensures r == 0 <==> CStr(a) == CStr(b)
    ensures r != 0 ==> exists j :: i <= j < |a| && j < |b| && a[..j] == b[..j] && a[j] != b[j] && r == a[j] as int - b[j] as int
    decreases |a| - i
  {
    if a[i] != Nul && b[i] != Nul && a[i] == b[i] then
      assert a[..i + 1] == b[..i + 1] by { assert a[..i + 1] == a[..i] + [a[i]]; assert b[..i + 1] == b[..i] + [b[i]]; }
      CmpFrom(a, b, i + 1)
    else
      if a[i] == b[i] then
        assert a[i] == Nul && CLength(a) == i && CLength(b) == i;
        0
      else
        assert CLength(a) != CLength(b) || CStr(a)[i] != CStr(b)[i] by {
          if CLength(a) == CLength(b) {
            assert i < CLength(a);
          }
        }
        a[i] as int - b[i] as int
  }

  /**
   * cmpStr: 0 exactly when the two C strings are equal, otherwise the
   * difference of the first characters where they differ (a NUL counts
   * as the end of the shorter string).
   */
  function CmpStr(a: seq<char>, b: seq<char>): (r: int)
    requires Nul in a && Nul in b
    ensures r == 0 <==> CStr(a) == CStr(b)
    ensures r != 0 ==> exists j :: 0 <= j < |a| && j < |b| && a[..j] == b[..j] && a[j] != b[j] && r == a[j] as int - b[j] as int
  {
    CmpFrom(a, b, 0)
  }

  // ---------------------------------------------------------------------
  // isCommand
  // ---------------------------------------------------------------------

  /** The case folding of isCommand: 'A' .. 'Z' become 'a' .. 'z'. */
  function Lower(c: char): char {
    if 'A' <= c <= 'Z' then (c as int + 32) as char else c
  }

  /** The buffer starts with the command, ignoring case, followed by a space or the end of the string. */
  ghost predicate NamesCommand(buffer: seq<char>, command: seq<char>)
    requires Nul in command
  {
    var n := CLength(command);
    n < |buffer| && (forall j :: 0 <= j < n ==> Lower(buffer[j]) == Lower(command[j]))
    && (buffer[n] == ' ' || buffer[n] == Nul)
  }

  /** The comparison loop of isCommand from position i, the two agreeing before i. */
  function MatchFrom(buffer: seq<char>, command: seq<char>, i: nat): (r: bool)
    requires Nul in buffer && Nul in command
    requires i <= CLength(command) && i <= CLength(buffer)
    requires forall j :: 0 <= j < i ==> Lower(buffer[j]) == Lower(command[j])
    ensures r <==> NamesCommand(buffer, command)
    decreases |command| - i
  {
    if command[i] != Nul then
      if Lower(buffer[i]) != Lower(command[i]) then false
      else
        assert buffer[i] != Nul;
        MatchFrom(buffer, command, i + 1)
    else
      buffer[i] == ' ' || buffer[i] == Nul
  }

  /**
   * isCommand: the buffer names the command and holds at least
   * minArguments fields after it. The argument count is the uint8_t
   * fieldCount - 1, which is 255 when no field was parsed.
   */
  function IsCommand(buffer: seq<char>, fieldCount: u8, command: seq<char>, minArguments: u8): (r: bool)
    requires Nul in buffer && Nul in command
    ensures r <==> NamesCommand(buffer, command) && Trunc8(fieldCount - 1) >= minArguments
  {
    MatchFrom(buffer, command, 0) && Trunc8(fieldCount - 1) >= minArguments
  }

  // ---------------------------------------------------------------------
  // isInteger
  // ---------------------------------------------------------------------

  /** The loop of isInteger from position i. */
  function AllDigitsFrom(s: seq<char>, i: nat): (r: bool)
    requires Nul in s && i <= CLength(s)
    ensures r <==> forall j :: i <= j < CLength(s) ==> '0' <= s[j] <= '9'
    decreases CLength(s) - i
  {
    if s[i] == Nul then true
    else if s[i] < '0' || s[i] > '9' then false
    else AllDigitsFrom(s, i + 1)
  }

  /**
   * isInteger: every character of the string is a decimal digit (so the
   * empty string is an integer). Its uint8_t index bounds the string to
   * 255 characters.
   */
  function IsInteger(s: seq<char>): (r: bool)
    requires Nul in s && CLength(s) < 0x100
    ensures r <==> forall j :: 0 <= j < CLength(s) ==> '0' <= s[j] <= '9'
  {
    AllDigitsFrom(s, 0)
  }

  // ---------------------------------------------------------------------
  // parseFields
  // ---------------------------------------------------------------------

  /** A character parseFields reads as part of an alphabetic field. */
  predicate IsAlpha(c: char) {
    'a' <= c <= 'z' || 'A' <= c <= 'Z' || c == '_'
  }

  /** A character parseFields reads as part of a numeric field. */
  predicate IsNumeric(c: char) {
    '0' <= c <= '9' || c == '-' || c == '.'
  }

  /** Every other character is a delimiter. */
  predicate IsToken(c: char) {
    IsAlpha(c) || IsNumeric(c)
  }

  /** A field starts at i: a token character after a delimiter or at the start. */
  predicate StartsField(t: seq<char>, i: nat)
    requires i < |t|
  {
    IsToken(t[i]) && (i == 0 || !IsToken(t[i - 1]))
  }

  /** The field type parseFields records for a field starting with c. */
  function FieldType(c: char): char {
    if IsAlpha(c) then 'a' else 'n'
  }

  /** A field parseFields finds: where it starts and its type, 'a' or 'n'. */
  datatype Field = Field(position: nat, kind: char)

  /** The fields that start before position i of s, in order. */
  function FieldsBefore(s: seq<char>, i: nat): seq<Field>
    requires i <= |s|
  {
    if i == 0 then []
    else FieldsBefore(s, i - 1) + (if StartsField(s, i - 1) then [Field(i - 1, FieldType(s[i - 1]))] else [])
  }

  /** The fields of the C string in s, in order: one at each position where a field starts. */
  function FieldsOf(s: seq<char>): seq<Field>
    requires Nul in s
  {
    FieldsBefore(s, CLength(s))
  }

  /** The buffer after parseFields: every delimiter of the string replaced by NUL. */
  function Parsed(s: seq<char>): (r: seq<char>)
    requires Nul in s
    ensures |r| == |s|
  {
    var n := CLength(s);
    seq(|s|, j requires 0 <= j < |s| => if j < n && !IsToken(s[j]) then Nul else s[j])
  }

  /** The fieldPosition table after recording fields fs over the table p0 of five entries. */
  function Positions(p0: seq<nat>, fs: seq<Field>): (r: seq<nat>)
    requires |p0| == MaxFields
    ensures |r| == MaxFields
  {
    seq(MaxFields, k requires 0 <= k < MaxFields => if k < |fs| then fs[k].position else p0[k])
  }

  /** The fieldType table after recording fields fs over the table t0 of five entries. */
  function Types(t0: seq<char>, fs: seq<Field>): (r: seq<char>)
    requires |t0| == MaxFields
    ensures |r| == MaxFields
  {
    seq(MaxFields, k requires 0 <= k < MaxFields => if k < |fs| then fs[k].kind else t0[k])
  }

  /** Recording one more field writes table entry |fs| while there is room, and nothing otherwise. */
  lemma RecordStep(p0: seq<nat>, t0: seq<char>, fs: seq<Field>, f: Field)
    requires |p0| == MaxFields && |t0| == MaxFields
    ensures |fs| < MaxFields ==>
      Positions(p0, fs + [f]) == Positions(p0, fs)[|fs| := f.position]
      && Types(t0, fs + [f]) == Types(t0, fs)[|fs| := f.kind]
    ensures |fs| >= MaxFields ==>
      Positions(p0, fs + [f]) == Positions(p0, fs) && Types(t0, fs + [f]) == Types(t0, fs)
  {
  }

  /**
   * The fields recorded before position i are exactly the field starts
   * before i, in increasing order, each with the type of its first
   * character.
   */
  lemma {:induction false} FieldsExact(s: seq<char>, i: nat)
    requires i <= |s|
    ensures forall k :: 0 <= k < |FieldsBefore(s, i)| ==>
      (FieldsBefore(s, i)[k].position < i && StartsField(s, FieldsBefore(s, i)[k].position)
       && FieldsBefore(s, i)[k].kind == FieldType(s[FieldsBefore(s, i)[k].position]))
    ensures forall k, l :: 0 <= k < l < |FieldsBefore(s, i)| ==> FieldsBefore(s, i)[k].position < FieldsBefore(s, i)[l].position
    ensures forall j :: 0 <= j < i && StartsField(s, j) ==> exists k :: 0 <= k < |FieldsBefore(s, i)| && FieldsBefore(s, i)[k].position == j
    decreases i
  {
    if i > 0 {
      FieldsExact(s, i - 1);
      var fs := FieldsBefore(s, i - 1);
      var gs := FieldsBefore(s, i);
      assert forall k :: 0 <= k < |fs| ==> gs[k] == fs[k];
      forall j | 0 <= j < i && StartsField(s, j)
        ensures exists k :: 0 <= k < |gs| && gs[k].position == j
      {
        if j < i - 1 {
          var k :| 0 <= k < |fs| && fs[k].position == j;
          assert gs[k] == fs[k];
        } else {
          assert gs[|fs|].position == j;
        }
      }
    }
  }

  /** Where the run of token characters from p ends: at the first delimiter or NUL. */
  function TokenEnd(s: seq<char>, p: nat): (e: nat)
    requires Nul in s && p <= CLength(s)
    ensures p <= e <= CLength(s) && !IsToken(s[e])
    ensures forall j :: p <= j < e ==> IsToken(s[j])
    decreases CLength(s) - p
  {
    if !IsToken(s[p]) then p else TokenEnd(s, p + 1)
  }

  /** In the parsed buffer the string at a token is the maximal run of token characters there. */
  lemma {:induction false} ParsedRun(s: seq<char>, p: nat)
    requires Nul in s && p <= CLength(s)
    ensures Nul in Parsed(s)[p..]
    ensures CStr(Parsed(s)[p..]) == s[p..TokenEnd(s, p)]
    decreases CLength(s) - p
  {
    if !IsToken(s[p]) {
      ParsedRunStop(s, p);
    } else {
      ParsedRun(s, p + 1);
      ParsedRunStep(s, p);
    }
  }

  /** A run that starts at a delimiter or at the NUL is empty. */
  lemma ParsedRunStop(s: seq<char>, p: nat)
    requires Nul in s && p <= CLength(s) && !IsToken(s[p])
    ensures Nul in Parsed(s)[p..] && CStr(Parsed(s)[p..]) == s[p..TokenEnd(s, p)]
  {
    var x := Parsed(s)[p..];
    assert x[0] == Nul by {
      assert Parsed(s)[p] == Nul;
    }
    assert Nul in x;
    assert CStr(x) == [] by {
      assert CLength(x) == 0;
    }
    assert TokenEnd(s, p) == p;
  }

  /** One token character more at the front of a run. */
  lemma ParsedRunStep(s: seq<char>, p: nat)
    requires Nul in s && p < CLength(s) && IsToken(s[p])
    requires Nul in Parsed(s)[p + 1..] && CStr(Parsed(s)[p + 1..]) == s[p + 1..TokenEnd(s, p + 1)]
    ensures Nul in Parsed(s)[p..] && CStr(Parsed(s)[p..]) == s[p..TokenEnd(s, p)]
  {
    var ps := Parsed(s);
    assert ps[p..][1..] == ps[p + 1..];
    CStrCons(ps[p..]);
    assert s[p..TokenEnd(s, p)] == [s[p]] + s[p + 1..TokenEnd(s, p + 1)];
  }

  /**
   * After parseFields the string getFieldString returns for field k is
   * exactly that field: one or more token characters of the input,
   * ending at the next delimiter.
   */
  lemma ParsedField(s: seq<char>, k: nat)
    requires Nul in s && k < |FieldsOf(s)|
    ensures var p := FieldsOf(s)[k].position;
      p < CLength(s) && Nul in Parsed(s)[p..]
      && CStr(Parsed(s)[p..]) == s[p..TokenEnd(s, p)] && |CStr(Parsed(s)[p..])| >= 1
      && (FieldsOf(s)[k].kind == 'a' <==> IsAlpha(s[p]))
  {
    FieldsExact(s, CLength(s));
    var p := FieldsOf(s)[k].position;
    ParsedRun(s, p);
  }

  /** The fields of the USER_DATA struct as values. */
  datatype UserView = UserView(buffer: seq<char>, fieldCount: nat, fieldPosition: seq<nat>, fieldType: seq<char>)

  /** What getFieldString returns: NULL, a pointer into the buffer, or a read past the field table. */
  datatype FieldRef = NullField | FieldAt(offset: nat) | PastTable

  /**
   * getFieldString: a pointer to field n for n < 5; for n == 5 the C code
   * reads fieldPosition[5], one past the table; NULL above that.
   */
  function GetFieldString(v: UserView, fieldNumber: u8): (r: FieldRef)
    requires |v.fieldPosition| == MaxFields
    ensures r.FieldAt? <==> fieldNumber < MaxFields
    ensures r.FieldAt? ==> r.offset == v.fieldPosition[fieldNumber]
    ensures r == PastTable <==> fieldNumber == MaxFields
  {
    if fieldNumber < MaxFields then FieldAt(v.fieldPosition[fieldNumber])
    else if fieldNumber == MaxFields then PastTable
    else NullField
  }

  /** The accumulation loop of getFieldInteger, `fieldint * 10 + (c - '0')` in int32. */
  function Accumulate(digits: seq<char>): (r: int)
    ensures -0x8000_0000 <= r < 0x8000_0000
  {
    if digits == [] then 0
    else Wrap32(Accumulate(digits[..|digits| - 1]) * 10 + (digits[|digits| - 1] as int - '0' as int))
  }

  /**
   * getFieldInteger: the value of field n when it is numeric, else 0.
   * The C code admits n == fieldCount, one past the last field, and for
   * n >= 5 reads fieldType[n] past its table: None.
   */
  function GetFieldInteger(v: UserView, fieldNumber: u8): (r: Option<int>)
    requires |v.fieldPosition| == MaxFields && |v.fieldType| == MaxFields
    requires fieldNumber < MaxFields && fieldNumber <= v.fieldCount && v.fieldType[fieldNumber] == 'n' ==>
      v.fieldPosition[fieldNumber] <= |v.buffer| && Nul in v.buffer[v.fieldPosition[fieldNumber]..]
    ensures r.None? <==> MaxFields <= fieldNumber <= v.fieldCount
    ensures r.Some? ==> -0x8000_0000 <= r.value < 0x8000_0000
    ensures r.Some? && r.value != 0 ==> fieldNumber <= v.fieldCount && v.fieldType[fieldNumber] == 'n'
  {
    if fieldNumber <= v.fieldCount then
      if fieldNumber >= MaxFields then None
      else if v.fieldType[fieldNumber] == 'n' then Some(Accumulate(CStr(v.buffer[v.fieldPosition[fieldNumber]..])))
      else Some(0)
    else Some(0)
  }

  /** The USER_DATA struct that parseFields fills in place. */
  class UserData {
    var buffer: array<char>
    var fieldCount: nat
    var fieldPosition: array<nat>
    var fieldType: array<char>

    ghost predicate Valid()
      reads this
    {
      buffer.Length == MaxChars + 1 && fieldPosition.Length == MaxFields
      && fieldType.Length == MaxFields && buffer != fieldType
    }

    function View(): UserView
      reads this, buffer, fieldPosition, fieldType
    {
      UserView(buffer[..], fieldCount, fieldPosition[..], fieldType[..])
    }

    /**
     * parseFields: NUL out the delimiters and record each field's start
     * and type. The C code counts every field but has room for five; the
     * model records the first five and leaves the table alone after them.
     */
    method ParseFields()
      requires Valid() && Nul in buffer[..]
      modifies this`fieldCount, buffer, fieldPosition, fieldType
      ensures Valid()
      ensures buffer[..] == Parsed(old(buffer[..]))
      ensures fieldCount == |FieldsOf(old(buffer[..]))|
      ensures fieldPosition[..] == Positions(old(fieldPosition[..]), FieldsOf(old(buffer[..])))
      ensures fieldType[..] == Types(old(fieldType[..]), FieldsOf(old(buffer[..])))
    {
      ghost var s := buffer[..];
      ghost var n := CLength(s);
      ghost var ps := Parsed(s);
      ghost var p0 := fieldPosition[..];
      ghost var t0 := fieldType[..];
      fieldCount := 0;
      var i := 0;
      var prevCh := 0;
      var indexcount := 0;
      while buffer[i] != Nul
        invariant Valid() && 0 <= i <= n
        invariant forall j :: 0 <= j < buffer.Length ==> buffer[j] == if j < i && !IsToken(s[j]) then Nul else s[j]
        invariant prevCh == (if i > 0 && IsToken(s[i - 1]) then 1 else 0)
        invariant fieldCount == indexcount == |FieldsBefore(s, i)|
        invariant fieldPosition[..] == Positions(p0, FieldsBefore(s, i))
        invariant fieldType[..] == Types(t0, FieldsBefore(s, i))
        decreases n - i
      {
        RecordStep(p0, t0, FieldsBefore(s, i), Field(i, FieldType(s[i])));
        assert buffer[i] == s[i];
        var c := buffer[i];
        if IsAlpha(c) {
          if prevCh == 0 {
            if indexcount < MaxFields {
              fieldType[indexcount] := 'a';
              fieldPosition[indexcount] := i;
            }
            fieldCount := fieldCount + 1;
            prevCh := 1;
            indexcount := indexcount + 1;
          }
        } else if IsNumeric(c) {
          if prevCh == 0 {
            if indexcount < MaxFields {
              fieldType[indexcount] := 'n';
              fieldPosition[indexcount] := i;
            }
            fieldCount := fieldCount + 1;
            prevCh := 1;
            indexcount := indexcount + 1;
          }
        } else {
          buffer[i] := Nul;
          prevCh := 0;
        }
        i := i + 1;
      }
      assert buffer[..] == ps;
    }
  }

  // ---------------------------------------------------------------------
  // reverseStr, IntToStr, IntToHex, StringCopy
  // ---------------------------------------------------------------------

  /** The characters of s in the opposite order. */
  function Reverse(s: seq<char>): (r: seq<char>)
  {
    seq(|s|, i requires 0 <= i < |s| => s[|s| - 1 - i])
  }

  /** Reversing a sequence with c in front puts c at the back. */
  lemma ReverseCons(c: char, s: seq<char>)
    ensures Reverse([c] + s) == Reverse(s) + [c]
  {
  }

  /** Reversing twice gives the original back. */
  lemma ReverseReverse(s: seq<char>)
    ensures Reverse(Reverse(s)) == s
  {
  }

  /**
   * reverseStr: reverse the first len characters in place. Its uint32_t
   * `end = len - 1` wraps for len == 0, so the C code needs len >= 1.
   */
  method ReverseStr(str: array<char>, len: nat)
    requires 1 <= len <= str.Length
    modifies str
    ensures str[..len] == Reverse(old(str[..len]))
    ensures str[len..] == old(str[len..])
  {
    ghost var s := str[..];
    var start := 0;
    var end := len - 1;
    while start < end
      invariant 0 <= start <= len && start + end == len - 1
      invariant forall k :: 0 <= k < start ==> str[k] == s[len - 1 - k] && str[len - 1 - k] == s[k]
      invariant forall k :: start <= k <= end ==> str[k] == s[k]
      invariant forall k :: len <= k < str.Length ==> str[k] == s[k]
    {
      var temp := str[start];
      str[start] := str[end];
      str[end] := temp;
      start := start + 1;
      end := end - 1;
    }
    assert forall k :: 0 <= k < len ==> str[k] == s[len - 1 - k];
    assert str[len..] == s[len..];
  }

  /** The character of decimal digit d. */
  function DigitChar(d: nat): (c: char)
    requires d < 10
    ensures '0' <= c <= '9' && c as int - '0' as int == d
  {
    ('0' as int + d) as char
  }

  /** The decimal digits of n, most significant first, without leading zeros; "0" for 0. */
  function DecimalDigits(n: nat): (r: seq<char>)
    ensures |r| >= 1 && (r[0] == '0' ==> n == 0)
    ensures forall i :: 0 <= i < |r| ==> '0' <= r[i] <= '9'
  {
    if n < 10 then [DigitChar(n)] else DecimalDigits(n / 10) + [DigitChar(n % 10)]
  }

  /** The digits the loop of IntToStr writes, least significant first. */
  function LsbDigits(n: nat): (r: seq<char>)
  {
    if n == 0 then [] else [DigitChar(n % 10)] + LsbDigits(n / 10)
  }

  /** Reversing the digits IntToStr writes gives the decimal digits. */
  lemma {:induction false} LsbDigitsReversed(n: nat)
    requires n > 0
    ensures Reverse(LsbDigits(n)) == DecimalDigits(n)
    decreases n
  {
    if n >= 10 {
      LsbDigitsReversed(n / 10);
      ReverseCons(DigitChar(n % 10), LsbDigits(n / 10));
    } else {
      assert LsbDigits(n / 10) == [];
    }
  }

  /** IntToStr writes as many digits as the number has. */
  lemma LsbDigitsLength(n: nat)
    requires n > 0
    ensures |LsbDigits(n)| == |DecimalDigits(n)|
  {
    LsbDigitsReversed(n);
  }

  /**
   * IntToStr: the decimal digits of num followed by NUL, written by taking
   * digits off the low end and reversing them; the rest of str is left alone.
   */
  method IntToStr(num: u32, str: array<char>)
    requires |DecimalDigits(num)| < str.Length
    modifies str
    ensures forall k :: 0 <= k < |DecimalDigits(num)| ==> str[k] == DecimalDigits(num)[k]
    ensures str[|DecimalDigits(num)|] == Nul
    ensures forall k :: |DecimalDigits(num)| < k < str.Length ==> str[k] == old(str[k])
  {
    ghost var s := str[..];
    var i := 0;
    if num == 0 {
      assert DecimalDigits(num) == ['0'];
      str[i] := '0';
      i := i + 1;
      str[i] := Nul;
      return;
    }
    LsbDigitsLength(num);
    ghost var digits := LsbDigits(num);
    var n := num;
    while n != 0
      invariant 0 <= i <= |digits| && LsbDigits(n) == digits[i..]
      invariant forall k :: 0 <= k < i ==> str[k] == digits[k]
      invariant forall k :: i <= k < str.Length ==> str[k] == s[k]
    {
      var remainder := n % 10;
      str[i] := DigitChar(remainder);
      assert digits[i..][1..] == digits[i + 1..];
      i := i + 1;
      n := n / 10;
    }
    str[i] := Nul;
    ghost var written := str[..];
    assert written[..i] == digits;
    ReverseStr(str, i);
    LsbDigitsReversed(num);
    assert forall k :: 0 <= k < i ==> str[k] == str[..i][k];
    assert forall k :: i <= k < str.Length ==> str[k] == written[k];
  }

  /** 10^k. */
  function Pow10(k: nat): (r: nat)
    ensures r >= 1
  {
    if k == 0 then 1 else 10 * Pow10(k - 1)
  }

  /** A number below 10^k has at most k decimal digits. */
  lemma {:induction false} DigitsLength(n: nat, k: nat)
    requires 1 <= k && n < Pow10(k)
    ensures |DecimalDigits(n)| <= k
    decreases k
  {
    if n >= 10 {
      assert k >= 2;
      DigitsLength(n / 10, k - 1);
    }
  }

  /** The unbounded value of a string of decimal digits. */
  function DecimalValue(digits: seq<char>): nat
    requires forall i :: 0 <= i < |digits| ==> '0' <= digits[i] <= '9'
  {
    if digits == [] then 0
    else DecimalValue(digits[..|digits| - 1]) * 10 + (digits[|digits| - 1] as int - '0' as int)
  }

  /** The decimal digits of n have the value n. */
  lemma {:induction false} DecimalDigitsValue(n: nat)
    ensures DecimalValue(DecimalDigits(n)) == n
    decreases n
  {
    if n >= 10 {
      DecimalDigitsValue(n / 10);
      var d := DecimalDigits(n);
      assert d[..|d| - 1] == DecimalDigits(n / 10);
    }
  }

  /** getFieldInteger's accumulation does not wrap while the value stays below 2^31. */
  lemma {:induction false} AccumulateDecimal(digits: seq<char>)
    requires forall i :: 0 <= i < |digits| ==> '0' <= digits[i] <= '9'
    requires DecimalValue(digits) < 0x8000_0000
    ensures Accumulate(digits) == DecimalValue(digits)
    decreases |digits|
  {
    if digits != [] {
      AccumulateDecimal(digits[..|digits| - 1]);
    }
  }

  /** getFieldInteger of a field of decimal digits whose value fits in int32_t is that value. */
  lemma NumericFieldValue(v: UserView, fieldNumber: u8)
    requires |v.fieldPosition| == MaxFields && |v.fieldType| == MaxFields
    requires fieldNumber < MaxFields && fieldNumber <= v.fieldCount && v.fieldType[fieldNumber] == 'n'
    requires v.fieldPosition[fieldNumber] <= |v.buffer| && Nul in v.buffer[v.fieldPosition[fieldNumber]..]
    requires forall i :: 0 <= i < |CStr(v.buffer[v.fieldPosition[fieldNumber]..])| ==>
      '0' <= CStr(v.buffer[v.fieldPosition[fieldNumber]..])[i] <= '9'
    requires DecimalValue(CStr(v.buffer[v.fieldPosition[fieldNumber]..])) < 0x8000_0000
    ensures GetFieldInteger(v, fieldNumber) == Some(DecimalValue(CStr(v.buffer[v.fieldPosition[fieldNumber]..])))
  {
    AccumulateDecimal(CStr(v.buffer[v.fieldPosition[fieldNumber]..]));
  }

  /**
   * The digits IntToStr writes for num < 2^31 read back as num through the
   * accumulation loop of getFieldInteger.
   */
  lemma IntToStrRoundTrip(num: nat)
    requires num < 0x8000_0000
    ensures Accumulate(DecimalDigits(num)) == num
  {
    DecimalDigitsValue(num);
    AccumulateDecimal(DecimalDigits(num));
  }

  /** The hex digit table of IntToHex. */
  const HexTable: seq<char> := "0123456789ABCDEF"

  /** Nibble j of n: `(n >> 4j) & 0xF`. */
  function Nibble(n: nat, j: nat): (r: nat)
    ensures r < 16
  {
    (n / Pow2(4 * j)) % 16
  }

  /** The eight hex digits of n, most significant nibble first, in upper case. */
  function HexDigits(n: u32): (r: seq<char>)
    ensures |r| == 8
    ensures forall k :: 0 <= k < 8 ==> r[k] == HexTable[Nibble(n, 7 - k)]
  {
    seq(8, k requires 0 <= k < 8 => HexTable[Nibble(n, 7 - k)])
  }

  /**
   * IntToHex: exactly eight hex digits of num and a NUL in str[0..8], the
   * digit for bits 4j .. 4j+3 at index 7 - j; the rest of str is left alone.
   */
  method IntToHex(num: u32, str: array<char>)
    requires str.Length >= 9
    modifies str
    ensures str[..9] == HexDigits(num) + [Nul]
    ensures str[9..] == old(str[9..])
  {
    ghost var s := str[..];
    str[8] := Nul;
    var i := 28;
    ghost var done := 0;
    while i >= 0
      invariant 0 <= done <= 8 && i == 28 - 4 * done
      invariant str[8] == Nul
      invariant forall k :: 0 <= k < done ==> str[k] == HexDigits(num)[k]
      invariant forall k :: 9 <= k < str.Length ==> str[k] == s[k]
    {
      var bit := (num / Pow2(i)) % 16;
      assert i / 4 == 7 - done && bit == Nibble(num, 7 - done);
      str[7 - i / 4] := HexTable[bit];
      i := i - 4;
      done := done + 1;
    }
    assert str[..9] == HexDigits(num) + [Nul];
    assert str[9..] == s[9..];
  }

  /** The value of a string of hex digits. */
  function HexValue(digits: seq<char>): nat
  {
    if digits == [] then 0
    else HexValue(digits[..|digits| - 1]) * 16 + HexDigitValue(digits[|digits| - 1])
  }

  /** The value of one upper-case hex digit. */
  function HexDigitValue(c: char): nat
  {
    if '0' <= c <= '9' then c as int - '0' as int
    else if 'A' <= c <= 'F' then c as int - 'A' as int + 10
    else 0
  }

  /** The first k digits of HexDigits(n) have the value of n's top k nibbles. */
  lemma {:induction false} HexPrefixValue(n: u32, k: nat)
    requires k <= 8
    ensures HexValue(HexDigits(n)[..k]) == n / Pow2(4 * (8 - k))
    decreases k
  {
    var h := HexDigits(n);
    if k == 0 {
      Pow2Of32();
      DivUnique(n, Pow2(32), 0, n);
    } else {
      HexPrefixValue(n, k - 1);
      var j := 8 - k;
      var p := h[..k];
      assert p[..k - 1] == h[..k - 1];
      HexLastDigit(p, Nibble(n, j));
      NibbleStep(n, j);
      var high := HexValue(h[..k - 1]);
      assert 4 * (8 - (k - 1)) == 4 * (j + 1) && 4 * (8 - k) == 4 * j;
      assert high == n / Pow2(4 * (j + 1));
      assert HexValue(p) == high * 16 + Nibble(n, j);
    }
  }

  /** Appending the digit of d to a hex string multiplies its value by 16 and adds d. */
  lemma HexLastDigit(p: seq<char>, d: nat)
    requires |p| >= 1 && d < 16 && p[|p| - 1] == HexTable[d]
    ensures HexValue(p) == HexValue(p[..|p| - 1]) * 16 + d
  {
    HexTableValue(d);
  }

  /** Peeling off nibble j: n >> 4j == ((n >> 4(j+1)) << 4) | nibble j. */
  lemma NibbleStep(n: nat, j: nat)
    ensures n / Pow2(4 * j) == (n / Pow2(4 * (j + 1))) * 16 + Nibble(n, j)
  {
    var q := n / Pow2(4 * j);
    Pow2Nibble(4 * j);
    assert Pow2(4 * (j + 1)) == Pow2(4 * j) * 16;
    DivDiv(n, Pow2(4 * j), 16);
    assert n / Pow2(4 * (j + 1)) == q / 16;
  }

  /** Each digit of the table reads back as its own index. */
  lemma HexTableValue(d: nat)
    requires d < 16
    ensures HexDigitValue(HexTable[d]) == d
  {
    if d < 8 {
      if d < 4 { assert d == 0 || d == 1 || d == 2 || d == 3; }
      else { assert d == 4 || d == 5 || d == 6 || d == 7; }
    } else {
      if d < 12 { assert d == 8 || d == 9 || d == 10 || d == 11; }
      else { assert d == 12 || d == 13 || d == 14 || d == 15; }
    }
  }

  /** IntToHex's digits read back as num. */
  lemma IntToHexRoundTrip(num: u32)
    ensures HexValue(HexDigits(num)) == num
  {
    HexPrefixValue(num, 8);
    assert HexDigits(num)[..8] == HexDigits(num);
  }

  // ---------------------------------------------------------------------
  // StringCopy
  // ---------------------------------------------------------------------

  /**
   * StringCopy: the characters of source up to its NUL, then a NUL, land at
   * the start of destination; nothing past that NUL changes.
   */
  method StringCopy(source: seq<char>, destination: array<char>)
    requires Nul in source && CLength(source) < destination.Length
    modifies destination
    ensures forall k :: 0 <= k < CLength(source) ==> destination[k] == source[k]
    ensures destination[CLength(source)] == Nul
    ensures forall k :: CLength(source) < k < destination.Length ==> destination[k] == old(destination[k])
  {
    var i := 0;
    while source[i] != Nul
      invariant 0 <= i <= CLength(source)
      invariant forall k :: 0 <= k < i ==> destination[k] == source[k]
      invariant forall k :: i <= k < destination.Length ==> destination[k] == old(destination[k])
      decreases CLength(source) - i
    {
      destination[i] := source[i];
      i := i + 1;
    }
    destination[i] := Nul;
  }

  /** What StringCopy leaves behind is the same C string: cmpStr reports a match. */
  lemma CopiedString(source: seq<char>, destination: seq<char>)
    requires Nul in source && CLength(source) < |destination|
    requires forall k :: 0 <= k < CLength(source) ==> destination[k] == source[k]
    requires destination[CLength(source)] == Nul
    ensures Nul in destination && CStr(destination) == CStr(source)
    ensures CmpStr(destination, source) == 0
  {
    var n := CLength(source);
    assert destination[n] == Nul;
    var m := CLength(destination);
    assert m == n;
    assert CStr(destination) == CStr(source);
  }
}
