/** Printing and parsing FIX messages (server/src/core/FIXParser.cpp). */
module FixCodec {

  type Byte = b: int | 0 <= b < 256

  const SOH: Byte := 1
  const MINUS: Byte := 45
  const ZERO: Byte := 48
  const ONE: Byte := 49
  const EQUALS: Byte := 61
  const FIX44: seq<Byte> := [70, 73, 88, 46, 52, 46, 52]

  // ---------- numbers ----------

  /** to_string of a number that is not negative. */
  function Digits(n: nat): (r: seq<Byte>)
    ensures 0 < |r| && forall b :: b in r ==> ZERO <= b < ZERO + 10
  {
    if n < 10 then [ZERO + n] else Digits(n / 10) + [ZERO + n % 10]
  }

  /** to_string of an int. */
  function Decimal(n: int): seq<Byte> {
    if n < 0 then [MINUS] + Digits(-n) else Digits(n)
  }

  predicate IsDigit(b: Byte) {
    ZERO <= b < ZERO + 10
  }

  /** The number a run of digits spells, after the value read so far. */
  function Spelled(s: seq<Byte>, sofar: nat): nat {
    if s == [] || !IsDigit(s[0]) then sofar else Spelled(s[1..], sofar * 10 + (s[0] - ZERO))
  }

  /** Blanks that atoi skips: tab to carriage return, and space. */
  predicate IsBlank(b: Byte) {
    b == 32 || 9 <= b <= 13
  }

  function Atoi(s: seq<Byte>): int {
    if s == [] then 0
    else if IsBlank(s[0]) then Atoi(s[1..])
    else if s[0] == MINUS then 0 - Spelled(s[1..], 0)
    else if s[0] == 43 then Spelled(s[1..], 0)
    else Spelled(s, 0)
  }

  lemma {:induction false} SpelledConcat(s: seq<Byte>, t: seq<Byte>, sofar: nat)
    requires forall b :: b in s ==> IsDigit(b)
    ensures Spelled(s + t, sofar) == Spelled(t, Spelled(s, sofar))
  {
    if s == [] {
      assert s + t == t;
    } else {
      assert (s + t)[0] == s[0] && (s + t)[1..] == s[1..] + t;
      assert s[0] in s;
      SpelledConcat(s[1..], t, sofar * 10 + (s[0] - ZERO));
    }
  }

  lemma {:induction false} SpelledDigits(n: nat, rest: seq<Byte>)
    requires rest != [] ==> !IsDigit(rest[0])
    ensures Spelled(Digits(n) + rest, 0) == n
  {
    if n < 10 {
      assert ([ZERO + n] + rest)[1..] == rest;
    } else {
      SpelledDigits(n / 10, []);
      assert Digits(n / 10) + [] == Digits(n / 10);
      assert Digits(n) + rest == Digits(n / 10) + ([ZERO + n % 10] + rest);
      SpelledConcat(Digits(n / 10), [ZERO + n % 10] + rest, 0);
      assert ([ZERO + n % 10] + rest)[1..] == rest;
      assert Spelled([ZERO + n % 10] + rest, n / 10) == n / 10 * 10 + n % 10;
    }
  }

  /** A number survives printing and reading, whatever the sign. */
  lemma AtoiDecimal(n: int)
    ensures Atoi(Decimal(n)) == n
  {
    var d := Digits(if n < 0 then -n else n);
    SpelledDigits(if n < 0 then -n else n, []);
    assert d + [] == d;
    assert d[0] in d;
    if n < 0 {
      assert Decimal(n)[1..] == d;
    }
  }

  /** The value of a row of digits, the last counting one and each before it ten times the next. */
  ghost function PlaceValue(d: seq<Byte>): int
    requires forall i :: 0 <= i < |d| ==> 48 <= d[i] <= 57
  {
    if d == [] then 0 else PlaceValue(d[..|d| - 1]) * 10 + (d[|d| - 1] - ZERO)
  }

  lemma {:induction false} SpelledValue(d: seq<Byte>, rest: seq<Byte>)
    requires (forall i :: 0 <= i < |d| ==> 48 <= d[i] <= 57) && (rest != [] ==> !(48 <= rest[0] <= 57))
    ensures 0 <= PlaceValue(d) == Spelled(d + rest, 0)
    decreases |d|
  {
    if d == [] {
      assert d + rest == rest;
    } else {
      var most, last := d[..|d| - 1], d[|d| - 1];
      SpelledValue(most, []);
      assert most + [] == most && most + ([last] + rest) == d + rest && ([last] + rest)[1..] == rest;
      SpelledConcat(most, [last] + rest, 0);
    }
  }

  /** What may stand before the digits of a number: blanks, then a sign or none. */
  datatype Sign = Plus | Minus | NoSign {
    function Text(): seq<Byte> {
      match this case Plus => [43] case Minus => [MINUS] case NoSign => []
    }
  }

  /** Any text is read as blanks, perhaps a sign, the longest row of digits after it, and a rest that is ignored;
      the row may be empty, and then the number is nothing. */
  ghost predicate ReadsAs(s: seq<Byte>, blanks: seq<Byte>, sign: Sign, d: seq<Byte>, rest: seq<Byte>) {
    && s == blanks + sign.Text() + d + rest
    && (forall i :: 0 <= i < |blanks| ==> blanks[i] == 32 || 9 <= blanks[i] <= 13) && (forall i :: 0 <= i < |d| ==> 48 <= d[i] <= 57)
    && (rest != [] ==> !(48 <= rest[0] <= 57))
    && (sign.NoSign? && d == [] && rest != [] ==> !IsBlank(rest[0]) && rest[0] != MINUS && rest[0] != 43)
  }

  lemma {:induction false} AtoiReads(s: seq<Byte>, blanks: seq<Byte>, sign: Sign, d: seq<Byte>, rest: seq<Byte>)
    requires ReadsAs(s, blanks, sign, d, rest)
    ensures Atoi(s) == if sign.Minus? then -PlaceValue(d) else PlaceValue(d)
    decreases |blanks|
  {
    if blanks != [] {
      assert s[1..] == blanks[1..] + sign.Text() + d + rest;
      AtoiReads(s[1..], blanks[1..], sign, d, rest);
    } else {
      SpelledValue(d, rest);
      AfterSign(s, sign, d, rest);
    }
  }

  lemma AfterSign(s: seq<Byte>, sign: Sign, d: seq<Byte>, rest: seq<Byte>)
    requires ReadsAs(s, [], sign, d, rest)
    ensures s == sign.Text() + (d + rest)
    ensures !sign.NoSign? ==> s[1..] == d + rest && s[0] == if sign.Minus? then MINUS else 43
    ensures sign.NoSign? ==> s == d + rest
    ensures sign.NoSign? && s != [] ==> !IsBlank(s[0]) && s[0] != MINUS && s[0] != 43
  {
    assert s == sign.Text() + (d + rest);
  }

  lemma OneBlank(s: seq<Byte>, blanks: seq<Byte>, sign: Sign, d: seq<Byte>, rest: seq<Byte>)
    requires s != [] && IsBlank(s[0]) && ReadsAs(s[1..], blanks, sign, d, rest)
    ensures ReadsAs(s, [s[0]] + blanks, sign, d, rest)
  {
    assert s == [s[0]] + s[1..] == [s[0]] + blanks + sign.Text() + d + rest;
  }

  /** And every text is of that form. */
  lemma {:induction false} ReadsSomehow(s: seq<Byte>) returns (blanks: seq<Byte>, sign: Sign, d: seq<Byte>, rest: seq<Byte>)
    ensures ReadsAs(s, blanks, sign, d, rest)
    decreases |s|
  {
    if s != [] && IsBlank(s[0]) {
      hide ReadsAs;
      blanks, sign, d, rest := ReadsSomehow(s[1..]);
      OneBlank(s, blanks, sign, d, rest);
      blanks := [s[0]] + blanks;
    } else {
      blanks := [];
      sign := if s == [] then NoSign else if s[0] == MINUS then Minus else if s[0] == 43 then Plus else NoSign;
      d, rest := LongestRow(if sign.NoSign? then s else s[1..]);
      assert s == sign.Text() + if sign.NoSign? then s else s[1..];
    }
  }

  lemma {:induction false} LongestRow(s: seq<Byte>) returns (d: seq<Byte>, rest: seq<Byte>)
    ensures s == d + rest && (forall i :: 0 <= i < |d| ==> 48 <= d[i] <= 57) && (rest != [] ==> !(48 <= rest[0] <= 57))
    decreases |s|
  {
    d, rest := [], s;
    if s != [] && IsDigit(s[0]) {
      d, rest := LongestRow(s[1..]);
      d := [s[0]] + d;
    }
  }

  // ---------- messages ----------

  /** A field; a message enumerates its fields in some order, no tag twice. */
  datatype Entry = Entry(tag: int, value: seq<Byte>)

  function Field(tag: int, value: seq<Byte>): seq<Byte> {
    Decimal(tag) + [EQUALS] + value + [SOH]
  }

  predicate IsFraming(tag: int) {
    tag == 8 || tag == 9 || tag == 10
  }

  function Body(fields: seq<Entry>): seq<Byte> {
    if fields == [] then []
    else (if IsFraming(fields[0].tag) then [] else Field(fields[0].tag, fields[0].value)) + Body(fields[1..])
  }

  function Total(s: seq<Byte>): nat {
    if s == [] then 0 else s[0] + Total(s[1..])
  }

  function Checksum(s: seq<Byte>): Byte {
    Total(s) % 256
  }

  /** Three digits, as "%03d" prints a number. */
  function Three(n: nat): seq<Byte>
    requires n < 1000
  {
    [ZERO + n / 100, ZERO + n / 10 % 10, ZERO + n % 10]
  }

  function Head(body: seq<Byte>): seq<Byte> {
    Field(8, FIX44) + Field(9, Decimal(|body|))
  }

  /** The message for a sequence of fields, as the protocol has it. */
  function Message(fields: seq<Entry>): seq<Byte> {
    var p := Head(Body(fields)) + Body(fields);
    p + Field(10, Three(Checksum(p)))
  }

  // ---------- parsing ----------

  /** Where a byte first occurs, or the length. */
  function Find(s: seq<Byte>, b: Byte): (i: nat)
    ensures i <= |s| && (i < |s| ==> s[i] == b) && forall j :: 0 <= j < i ==> s[j] != b
  {
    if s == [] || s[0] == b then 0 else 1 + Find(s[1..], b)
  }

  datatype Next = None | Some(tag: int, value: seq<Byte>, rest: seq<Byte>)

  function NextField(s: seq<Byte>): (r: Next)
    ensures r.Some? ==> |r.rest| < |s|
  {
    var e := Find(s, EQUALS);
    if e == |s| then None
    else
      var t := s[e + 1..];
      var v := Find(t, SOH);
      if v == |t| then None else Some(Atoi(s[..e]), t[..v], t[v + 1..])
  }

  /** All fields; of a tag that occurs twice the last one counts. */
  function Fields(s: seq<Byte>, sofar: map<int, seq<Byte>>): map<int, seq<Byte>>
    decreases |s|
  {
    match NextField(s)
    case None => sofar
    case Some(tag, value, rest) => Fields(rest, sofar[tag := value])
  }

  /** What follows byte i; past the end there is NUL, as after a C string. */
  function At(s: seq<Byte>, i: nat): Byte {
    if i < |s| then s[i] else 0
  }

  predicate TrailerAt(s: seq<Byte>, i: nat) {
    At(s, i) == ONE && At(s, i + 1) == ZERO && At(s, i + 2) == EQUALS
  }

  /** Where the checksum's digits begin, searched from the seventh byte before the end; or nothing. */
  function TrailerFrom(s: seq<Byte>, i: nat): (r: int)
    requires i <= |s|
    ensures r == -1 || 3 <= r <= |s| + 2
    decreases |s| - i
  {
    if i == |s| then -1 else if TrailerAt(s, i) then i + 3 else TrailerFrom(s, i + 1)
  }

  function Drop(s: seq<Byte>, i: nat): seq<Byte> {
    if i <= |s| then s[i..] else []
  }

  function Take(s: seq<Byte>, i: nat): seq<Byte> {
    if i <= |s| then s[..i] else s
  }

  /** The code sums up to the checksum's digits; the protocol, and serialize, up to the tag before them. */
  datatype Rule = AsWritten | Protocol

  predicate Validates(rule: Rule, s: seq<Byte>) {
    if |s| < 7 then false
    else
      var p := TrailerFrom(s, |s| - 7);
      p != -1 && RemainderIs(Atoi(Drop(s, p)), Checksum(Take(s, if rule.AsWritten? then p else p - 3)))
  }

  predicate Accepts(rule: Rule, s: seq<Byte>) {
    10 <= |s| && Validates(rule, s)
  }

  /** C++ remainder by 256 equals a byte: never so for a negative number that 256 does not divide. */
  predicate RemainderIs(n: int, c: Byte) {
    if n < 0 then n % 256 == 0 && c == 0 else n % 256 == c
  }

  datatype Parsed = Rejected | Parsed(fields: map<int, seq<Byte>>)

  function Parse(rule: Rule, s: seq<Byte>): Parsed {
    if Accepts(rule, s) then Parsed(Fields(s, map[])) else Rejected
  }

  /** The next field of any text: the text before the first equals sign is its tag, what follows up to the next
      separator its value; and there is none exactly if no separator follows an equals sign. */
  lemma NextReads(s: seq<Byte>)
    ensures NextField(s).None? <==> forall i, j :: 0 <= i < j < |s| && s[i] == EQUALS ==> s[j] != SOH
    ensures NextField(s).Some? ==>
      var Some(tag, value, rest) := NextField(s);
      SOH !in value && exists t :: EQUALS !in t && tag == Atoi(t) && s == t + [EQUALS] + value + [SOH] + rest
  {
    hide Atoi;
    var e := Find(s, EQUALS);
    if e < |s| {
      var t := s[e + 1..];
      var v := Find(t, SOH);
      assert forall j :: 0 <= j < |t| ==> t[j] == s[e + 1 + j];
      if v < |t| {
        assert s[e] == EQUALS && s[e + 1 + v] == SOH;
        assert s == s[..e] + [EQUALS] + t[..v] + [SOH] + t[v + 1..];
      } else {
        forall i, j | 0 <= i < j < |s| && s[i] == EQUALS ensures s[j] != SOH {
          assert t[j - e - 1] == s[j];
        }
      }
    }
  }

  // ---------- a field survives printing and parsing ----------

  lemma {:induction false} FindAfter(a: seq<Byte>, b: Byte, t: seq<Byte>)
    requires b !in a
    ensures Find(a + [b] + t, b) == |a|
  {
    if a != [] {
      assert (a + [b] + t)[1..] == a[1..] + [b] + t;
      assert (a + [b] + t)[0] == a[0] && a[0] in a;
      FindAfter(a[1..], b, t);
    }
  }

  lemma DecimalClean(n: int)
    ensures EQUALS !in Decimal(n) && SOH !in Decimal(n)
  {
  }

  lemma NextOfField(tag: int, value: seq<Byte>, rest: seq<Byte>)
    requires SOH !in value
    ensures NextField(Field(tag, value) + rest) == Some(tag, value, rest)
  {
    var d, s := Decimal(tag), Field(tag, value) + rest;
    var t := value + [SOH] + rest;
    DecimalClean(tag);
    AtoiDecimal(tag);
    assert s == d + [EQUALS] + t;
    FindAfter(d, EQUALS, t);
    FindAfter(value, SOH, rest);
    assert s[..|d|] == d && s[|d| + 1..] == t;
    assert t[..|value|] == value && t[|value| + 1..] == rest;
  }

  /** The fields of a message as a map. */
  function Into(fields: seq<Entry>, sofar: map<int, seq<Byte>>): map<int, seq<Byte>> {
    if fields == [] then sofar
    else Into(fields[1..], if IsFraming(fields[0].tag) then sofar else sofar[fields[0].tag := fields[0].value])
  }

  ghost predicate Clean(fields: seq<Entry>) {
    forall e :: e in fields ==> SOH !in e.value
  }

  lemma FieldsOfField(tag: int, value: seq<Byte>, rest: seq<Byte>, sofar: map<int, seq<Byte>>)
    requires SOH !in value
    ensures Fields(Field(tag, value) + rest, sofar) == Fields(rest, sofar[tag := value])
  {
    hide Field, NextField;
    NextOfField(tag, value, rest);
  }

  lemma {:induction false} FieldsOfBody(fields: seq<Entry>, rest: seq<Byte>, sofar: map<int, seq<Byte>>)
    requires Clean(fields)
    ensures Fields(Body(fields) + rest, sofar) == Fields(rest, Into(fields, sofar))
    decreases |fields|
  {
    hide Field, Fields, NextField, Body;
    if fields == [] {
      NoBody();
      assert [] + rest == rest;
    } else {
      var e := fields[0];
      assert e in fields;
      BodyNext(fields, 0);
      assert fields[0..] == fields && fields[0 + 1..] == fields[1..];
      if IsFraming(e.tag) {
        FieldsOfBody(fields[1..], rest, sofar);
      } else {
        assert Body(fields) + rest == Field(e.tag, e.value) + (Body(fields[1..]) + rest);
        FieldsOfField(e.tag, e.value, Body(fields[1..]) + rest, sofar);
        FieldsOfBody(fields[1..], rest, sofar[e.tag := e.value]);
      }
    }
  }

  ghost predicate DistinctTags(fields: seq<Entry>) {
    forall i, j :: 0 <= i < j < |fields| ==> fields[i].tag != fields[j].tag
  }

  lemma {:induction false} IntoHolds(fields: seq<Entry>, sofar: map<int, seq<Byte>>)
    requires DistinctTags(fields)
    ensures var m := Into(fields, sofar);
      && (forall e :: e in fields && !IsFraming(e.tag) ==> e.tag in m && m[e.tag] == e.value)
      && (forall t :: t in sofar ==> t in m)
      && (forall t :: t in m ==> (t in sofar && m[t] == sofar[t]) || exists e :: e in fields && e.tag == t && !IsFraming(t))
      && (forall t :: t in sofar && (forall e :: e in fields ==> e.tag != t || IsFraming(t)) ==> m[t] == sofar[t])
  {
    if fields != [] {
      var e := fields[0];
      var next := if IsFraming(e.tag) then sofar else sofar[e.tag := e.value];
      assert forall i :: 0 <= i < |fields| - 1 ==> fields[1..][i] == fields[i + 1];
      IntoHolds(fields[1..], next);
      forall f | f in fields[1..] ensures f in fields && f.tag != e.tag {
        var i :| 0 <= i < |fields| - 1 && fields[1..][i] == f;
        assert fields[0].tag != fields[i + 1].tag;
      }
      assert forall f :: f in fields ==> f == e || f in fields[1..];
    }
  }

  // ---------- the trailer ----------

  lemma ThreeReads(n: nat, rest: seq<Byte>)
    requires n < 1000 && (rest != [] ==> !IsDigit(rest[0]))
    ensures Atoi(Three(n) + rest) == n
    ensures SOH !in Three(n)
  {
    var t := Three(n);
    var s := t + rest;
    assert s[1..] == [t[1], t[2]] + rest && s[1..][1..] == [t[2]] + rest && s[1..][1..][1..] == rest;
    assert Spelled(s[1..][1..][1..], n) == n;
    assert Spelled(s[1..][1..], n / 10) == n;
    assert Spelled(s[1..], n / 100) == n;
  }

  lemma {:induction false} TotalConcat(a: seq<Byte>, b: seq<Byte>)
    ensures Total(a + b) == Total(a) + Total(b)
  {
    if a == [] {
      assert a + b == b;
    } else {
      assert (a + b)[1..] == a[1..] + b;
      TotalConcat(a[1..], b);
    }
  }

  lemma TrailerText(n: nat)
    requires n < 1000
    ensures Field(10, Three(n)) == [ONE, ZERO, EQUALS] + Three(n) + [SOH] && |Field(10, Three(n))| == 7
  {
    assert Digits(1) == [ONE];
    assert Digits(10) == [ONE] + [ZERO];
    assert Decimal(10) == [ONE, ZERO];
  }

  /** A trailer after p is found where it stands. */
  lemma TrailerFound(p: seq<Byte>, c: nat)
    requires 3 <= |p| && c < 1000
    ensures var s, n := p + Field(10, Three(c)), |p|;
      && |s| == n + 7 && TrailerFrom(s, n) == n + 3
      && Drop(s, n + 3) == Three(c) + [SOH] && Take(s, n) == p && Take(s, n + 3) == p + [ONE, ZERO, EQUALS]
  {
    TrailerText(c);
    hide Field, Three;
    var s, n := p + Field(10, Three(c)), |p|;
    assert s == p + ([ONE, ZERO, EQUALS] + Three(c) + [SOH]);
    assert s[n] == ONE && s[n + 1] == ZERO && s[n + 2] == EQUALS;
    assert s[n + 3..] == Three(c) + [SOH];
    assert s[..n] == p && s[..n + 3] == p + [ONE, ZERO, EQUALS];
  }

  lemma TagTotal(p: seq<Byte>)
    ensures Checksum(p + [ONE, ZERO, EQUALS]) == (Total(p) + 158) % 256
  {
    TotalConcat(p, [ONE, ZERO, EQUALS]);
    assert [ONE, ZERO, EQUALS][1..] == [ZERO, EQUALS] && [ZERO, EQUALS][1..] == [EQUALS];
    assert Total([EQUALS]) == EQUALS;
  }

  /** The rule at a trailer that is where it is looked for. */
  lemma AcceptsIs(rule: Rule, s: seq<Byte>, n: nat)
    requires 3 <= n && |s| == n + 7 && TrailerFrom(s, n) == n + 3
    ensures Accepts(rule, s) <==>
      RemainderIs(Atoi(Drop(s, n + 3)), Checksum(Take(s, if rule.AsWritten? then n + 3 else n)))
  {
    hide TrailerFrom, Atoi, Checksum, Take, Drop, RemainderIs;
  }

  /** What either rule demands of the three digits of a trailer after p, whatever number they spell: the protocol,
      the sum of p; the code as written, that sum and 158 more, which is what the bytes "10=" add. */
  lemma AcceptedTrailer(p: seq<Byte>, n: nat)
    requires 3 <= |p| && n < 1000
    ensures Accepts(Protocol, p + Field(10, Three(n))) <==> n % 256 == Total(p) % 256
    ensures Accepts(AsWritten, p + Field(10, Three(n))) <==> n % 256 == (Total(p) + 158) % 256
  {
    hide *;
    TrailerFound(p, n);
    OneSeparator();
    ThreeReads(n, [SOH]);
    TagTotal(p);
    AcceptsIs(Protocol, p + Field(10, Three(n)), |p|);
    AcceptsIs(AsWritten, p + Field(10, Three(n)), |p|);
    RemainderOf(n, p);
    RemainderOf(n, p + [ONE, ZERO, EQUALS]);
  }

  lemma OneSeparator()
    ensures !IsDigit([SOH][0])
  {
  }

  lemma RemainderOf(n: nat, p: seq<Byte>)
    ensures RemainderIs(n, Checksum(p)) <==> n % 256 == Total(p) % 256
    ensures Checksum(p) == Total(p) % 256
  {
  }

  /** A message is accepted exactly if it has ten bytes and, from its seventh last byte on, the text "10=", the
      first of which is followed by a number that leaves the remainder of the bytes summed up; the remainder of a
      negative number is negative or nothing. */
  lemma AcceptsExactly(rule: Rule, s: seq<Byte>)
    ensures Accepts(rule, s) <==>
      && 10 <= |s|
      && exists i :: |s| - 7 <= i < |s| && TrailerAt(s, i) && (forall j :: |s| - 7 <= j < i ==> !TrailerAt(s, j))
          && var n, sum := Atoi(Drop(s, i + 3)), Total(Take(s, if rule.AsWritten? then i + 3 else i));
             n % 256 == sum % 256 && (0 <= n || n % 256 == 0)
  {
    if 10 <= |s| {
      FirstTrailer(s, |s| - 7);
    }
  }

  lemma {:induction false} FirstTrailer(s: seq<Byte>, i: nat)
    requires i <= |s|
    ensures var r := TrailerFrom(s, i);
      if r == -1 then forall j :: i <= j < |s| ==> !TrailerAt(s, j)
      else i <= r - 3 < |s| && TrailerAt(s, r - 3) && forall j :: i <= j < r - 3 ==> !TrailerAt(s, j)
    decreases |s| - i
  {
    if i < |s| && !TrailerAt(s, i) {
      FirstTrailer(s, i + 1);
    }
  }

  /** So without a trailer there, either rule rejects. */
  lemma NoTrailerRejected(rule: Rule, s: seq<Byte>)
    requires forall i :: 0 <= i <= |s| - 3 && |s| - 7 <= i ==> !(s[i] == ONE && s[i + 1] == ZERO && s[i + 2] == EQUALS)
    ensures Parse(rule, s) == Rejected
  {
    hide Atoi, Total, Fields;
    if 7 <= |s| {
      FirstTrailer(s, |s| - 7);
      forall i | |s| - 7 <= i < |s| ensures !TrailerAt(s, i) {
        assert At(s, i) == s[i];
      }
    }
  }

  lemma HeadLength(body: seq<Byte>)
    ensures |Head(body)| == 13 + |Decimal(|body|)|
  {
    assert Decimal(8) == [56] && Decimal(9) == [57];
  }

  /** A message is its three framing fields around its body. */
  lemma MessageParts(fields: seq<Entry>)
    ensures var b := Body(fields); var p := Head(b) + b;
      && 3 <= |p| && Message(fields) == p + Field(10, Three(Checksum(p)))
      && Message(fields) == Field(8, FIX44) + (Field(9, Decimal(|b|)) + (b + Field(10, Three(Checksum(p)))))
  {
    HeadLength(Body(fields));
    hide Field, Body, Checksum, Three, Decimal;
  }

  /** With the checksum read as the protocol says, parsing a printed message gives back its fields and the three
      framing fields, for every enumeration of the fields. */
  lemma RoundTrip(fields: seq<Entry>)
    requires Clean(fields) && DistinctTags(fields)
    ensures var m := Parse(Protocol, Message(fields));
      && m.Parsed?
      && (forall e :: e in fields && !IsFraming(e.tag) ==> e.tag in m.fields && m.fields[e.tag] == e.value)
      && (forall t :: t in m.fields ==> IsFraming(t) || exists e :: e in fields && e.tag == t)
      && 8 in m.fields && m.fields[8] == FIX44 && 9 in m.fields && m.fields[9] == Decimal(|Body(fields)|)
      && 10 in m.fields && m.fields[10] == Three(Checksum(Head(Body(fields)) + Body(fields)))
  {
    hide Field, Body, Checksum, Three, Decimal, Head, Message, Accepts, Fields, Into, DistinctTags;
    var b := Body(fields);
    var p := Head(b) + b;
    var c := Checksum(p);
    var trailer := Field(10, Three(c));
    MessageParts(fields);
    RemainderOf(c, p);
    AcceptedTrailer(p, c);
    DecimalClean(|b|);
    ThreeReads(c, []);
    var m8 := map[8 := FIX44];
    var m9 := m8[9 := Decimal(|b|)];
    FieldsOfField(8, FIX44, Field(9, Decimal(|b|)) + (b + trailer), map[]);
    FieldsOfField(9, Decimal(|b|), b + trailer, m8);
    FieldsOfBody(fields, trailer, m9);
    assert trailer + [] == trailer;
    FieldsOfField(10, Three(c), [], Into(fields, m9));
    NothingLeft(Into(fields, m9)[10 := Three(c)]);
    assert Fields(Message(fields), map[]) == Into(fields, m9)[10 := Three(c)];
    IntoHolds(fields, m9);
  }

  lemma NothingLeft(sofar: map<int, seq<Byte>>)
    ensures Fields([], sofar) == sofar
  {
  }

  /** As written, the parser rejects every message the printer prints. */
  lemma AsWrittenRejects(fields: seq<Entry>)
    ensures Parse(AsWritten, Message(fields)) == Rejected
  {
    hide Field, Body, Three, Decimal, Head, Message, Accepts, Fields, Total;
    var p := Head(Body(fields)) + Body(fields);
    MessageParts(fields);
    AcceptedTrailer(p, Checksum(p));
  }

  // ---------- printing into a buffer ----------

  /** A field is appended whole or, where it does not fit, silently left out. */
  function Append(sofar: seq<Byte>, field: seq<Byte>, size: nat): seq<Byte> {
    if |sofar| + |field| > size then sofar else sofar + field
  }

  /** What serialize leaves in a buffer of the given size. */
  function Serialized(fields: seq<Entry>, size: nat): seq<Byte> {
    if size < 32 then []
    else
      var b := Body(fields);
      var h := Append(Append([], Field(8, FIX44), size), Field(9, Decimal(|b|)), size);
      if |h| + |b| > size then [] else Append(h + b, Field(10, Three(Checksum(h + b))), size)
  }

  lemma {:induction false} FewDigits(n: nat)
    ensures n < 10 ==> |Digits(n)| == 1
    ensures 10 <= n ==> |Digits(n)| + 3 <= n
  {
    if 10 <= n {
      FewDigits(n / 10);
    }
  }

  /** The whole message comes out exactly when the buffer has 32 bytes and room for it; with up to seven bytes
      too few, a message without its trailer comes out instead; and with any less, nothing. */
  lemma SerializedWhole(fields: seq<Entry>, size: nat)
    ensures Serialized(fields, size) == Message(fields) <==> 32 <= size && |Message(fields)| <= size
    ensures 32 <= size && |Message(fields)| - 7 <= size < |Message(fields)| ==>
      Serialized(fields, size) == Head(Body(fields)) + Body(fields)
    ensures size < 32 || size < |Message(fields)| - 7 ==> Serialized(fields, size) == []
  {
    var b := Body(fields);
    MessageParts(fields);
    HeadLength(b);
    TrailerText(Checksum(Head(b) + b));
    FewDigits(|b|);
    assert [] + Field(8, FIX44) == Field(8, FIX44);
    hide Body, Three, Decimal, Checksum, Digits;
  }

  method Copy(buffer: array<Byte>, pos: nat, s: seq<Byte>)
    requires pos + |s| <= buffer.Length
    modifies buffer
    ensures buffer[..pos + |s|] == old(buffer[..pos]) + s
  {
    for i := 0 to |s|
      invariant buffer[..pos + i] == old(buffer[..pos]) + s[..i]
    {
      buffer[pos + i] := s[i];
      assert buffer[..pos + i + 1] == buffer[..pos + i] + [s[i]];
    }
    assert s[..|s|] == s;
  }

  method AppendField(buffer: array<Byte>, pos: nat, tag: int, value: seq<Byte>) returns (next: nat)
    requires pos <= buffer.Length
    modifies buffer
    ensures next <= buffer.Length && buffer[..next] == Append(old(buffer[..pos]), Field(tag, value), buffer.Length)
  {
    hide Decimal;
    var tagText := Decimal(tag);
    if pos + |tagText| + 1 + |value| + 1 > buffer.Length {
      return pos;
    }
    ghost var was := buffer[..pos];
    Copy(buffer, pos, tagText);
    next := pos + |tagText|;
    Copy(buffer, next, [EQUALS]);
    next := next + 1;
    Copy(buffer, next, value);
    next := next + |value|;
    Copy(buffer, next, [SOH]);
    next := next + 1;
    assert was + tagText + [EQUALS] + value + [SOH] == was + Field(tag, value);
  }

  method CalculateChecksum(data: seq<Byte>, length: nat) returns (sum: Byte)
    requires length <= |data|
    ensures sum == Checksum(data[..length])
  {
    sum := 0;
    for i := 0 to length
      invariant sum == Checksum(data[..i])
    {
      assert data[..i + 1] == data[..i] + [data[i]];
      TotalConcat(data[..i], [data[i]]);
      sum := (sum + data[i]) % 256;
    }
  }

  lemma BodyNext(fields: seq<Entry>, i: nat)
    requires i < |fields|
    ensures var e, rest := fields[i], Body(fields[i + 1..]);
      Body(fields[i..]) == if IsFraming(e.tag) then rest else Field(e.tag, e.value) + rest
  {
    hide Field;
    assert fields[i..][1..] == fields[i + 1..];
    assert [] + Body(fields[i + 1..]) == Body(fields[i + 1..]);
  }

  lemma NoBody()
    ensures Body([]) == []
  {
  }

  method BuildBody(fields: seq<Entry>) returns (body: seq<Byte>)
    ensures body == Body(fields)
  {
    hide Body, Field;
    body := [];
    assert fields[0..] == fields;
    NoBody();
    for i := 0 to |fields|
      invariant body + Body(fields[i..]) == Body(fields)
    {
      var e := fields[i];
      BodyNext(fields, i);
      if e.tag != 8 && e.tag != 9 && e.tag != 10 {
        assert body + (Field(e.tag, e.value) + Body(fields[i + 1..])) == body + Field(e.tag, e.value) + Body(fields[i + 1..]);
        body := body + Field(e.tag, e.value);
      }
    }
    assert fields[|fields|..] == [] && body + [] == body;
  }

  method Serialize(fields: seq<Entry>, buffer: array<Byte>) returns (pos: nat)
    modifies buffer
    ensures pos <= buffer.Length && buffer[..pos] == Serialized(fields, buffer.Length)
  {
    hide Body, Field, Append, Checksum, Three, Decimal;
    if buffer.Length < 32 {
      return 0;
    }
    var body := BuildBody(fields);
    assert buffer[..0] == [];
    pos := AppendField(buffer, 0, 8, FIX44);
    pos := AppendField(buffer, pos, 9, Decimal(|body|));
    if pos + |body| > buffer.Length {
      return 0;
    }
    Copy(buffer, pos, body);
    pos := pos + |body|;
    var checksum := CalculateChecksum(buffer[..pos], pos);
    assert buffer[..pos][..pos] == buffer[..pos];
    pos := AppendField(buffer, pos, 10, Three(checksum));
  }

  // ---------- parsing a buffer ----------

  method Seek(data: seq<Byte>, from: nat, b: Byte) returns (pos: nat)
    requires from <= |data|
    ensures pos == from + Find(data[from..], b)
  {
    pos := from;
    while pos < |data| && data[pos] != b
      invariant from <= pos <= |data| && b !in data[from..pos]
    {
      pos := pos + 1;
    }
    if pos < |data| {
      FindAfter(data[from..pos], b, data[pos + 1..]);
      assert data[from..] == data[from..pos] + [b] + data[pos + 1..];
    } else {
      assert data[from..pos] == data[from..];
    }
  }

  method FindNextField(data: seq<Byte>, from: nat) returns (found: bool, pos: nat, tag: int, value: seq<Byte>)
    requires from <= |data|
    ensures found <==> NextField(data[from..]).Some?
    ensures found ==> pos <= |data| && NextField(data[from..]) == Some(tag, value, data[pos..])
  {
    hide Find, Atoi;
    found, pos, tag, value := false, from, 0, [];
    if pos >= |data| {
      return;
    }
    ghost var s := data[from..];
    pos := Seek(data, from, EQUALS);
    if pos >= |data| {
      return;
    }
    assert s[..pos - from] == data[from..pos] && s[pos - from + 1..] == data[pos + 1..];
    tag := Atoi(data[from..pos]);
    pos := pos + 1;
    var valueStart := pos;
    ghost var t := data[valueStart..];
    pos := Seek(data, valueStart, SOH);
    if pos >= |data| {
      return;
    }
    assert t[..pos - valueStart] == data[valueStart..pos] && t[pos - valueStart + 1..] == data[pos + 1..];
    value := data[valueStart..pos];
    pos := pos + 1;
    found := true;
  }

  method ValidateChecksum(rule: Rule, data: seq<Byte>) returns (ok: bool)
    ensures ok == Validates(rule, data)
  {
    if |data| < 7 {
      return false;
    }
    var checksumPos := -1;
    for i := |data| - 7 to |data|
      invariant checksumPos == -1 && TrailerFrom(data, |data| - 7) == TrailerFrom(data, i)
    {
      if At(data, i) == ONE && At(data, i + 1) == ZERO && At(data, i + 2) == EQUALS {
        checksumPos := i + 3;
        break;
      }
    }
    if checksumPos == -1 {
      return false;
    }
    var summed := Take(data, if rule == AsWritten then checksumPos else checksumPos - 3);
    var expected := CalculateChecksum(summed, |summed|);
    assert summed[..|summed|] == summed;
    ok := RemainderIs(Atoi(Drop(data, checksumPos)), expected);
  }

  method ParseMessage(rule: Rule, data: seq<Byte>) returns (r: Parsed)
    ensures r == Parse(rule, data)
  {
    hide NextField, Validates;
    if |data| < 10 {
      return Rejected;
    }
    var ok := ValidateChecksum(rule, data);
    if !ok {
      return Rejected;
    }
    var fields: map<int, seq<Byte>> := map[];
    var pos: nat, next: nat := 0, 0;
    assert data[0..] == data;
    var found: bool, tag: int, value: seq<Byte>;
    found, next, tag, value := FindNextField(data, pos);
    while found
      invariant pos <= |data| && Fields(data, map[]) == Fields(data[pos..], fields)
      invariant found <==> NextField(data[pos..]).Some?
      invariant found ==> next <= |data| && NextField(data[pos..]) == Some(tag, value, data[next..])
      decreases |data| - pos
    {
      fields := fields[tag := value];
      pos := next;
      found, next, tag, value := FindNextField(data, pos);
    }
    return Parsed(fields);
  }
}
