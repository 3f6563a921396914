/** Reassembly of messages from a byte stream (the buffer loop of server/src/net/TCPServer.cpp). */
module Framing {
  import opened FixCodec

  /** The bytes 10=ddd and SOH at i, whatever stands before them. */
  predicate LooksLikeTrailer(s: seq<Byte>, i: nat) {
    && i + 6 < |s| && s[i] == ONE && s[i + 1] == ZERO && s[i + 2] == EQUALS
    && IsDigit(s[i + 3]) && IsDigit(s[i + 4]) && IsDigit(s[i + 5]) && s[i + 6] == SOH
  }

  /** Where the first trailer at or after i ends, or -1. */
  function Search(s: seq<Byte>, i: nat): (r: int)
    ensures r == -1 || i + 7 <= r <= |s|
    decreases |s| - i
  {
    if i + 7 > |s| then -1 else if LooksLikeTrailer(s, i) then i + 7 else Search(s, i + 1)
  }

  /** Which trailer that is. */
  lemma {:induction false} SearchIs(s: seq<Byte>, i: nat)
    ensures var r := Search(s, i);
      if r == -1 then forall j :: i <= j ==> !LooksLikeTrailer(s, j)
      else LooksLikeTrailer(s, r - 7) && forall j :: i <= j < r - 7 ==> !LooksLikeTrailer(s, j)
    decreases |s| - i
  {
    if i + 7 <= |s| && !LooksLikeTrailer(s, i) {
      SearchIs(s, i + 1);
    }
  }

  datatype Framed = Framed(messages: seq<seq<Byte>>, leftover: seq<Byte>)

  /** A stream cut after each first trailer. */
  function Frame(s: seq<Byte>): Framed
    decreases |s|
  {
    var e := Search(s, 0);
    if e == -1 then Framed([], s)
    else
      var r := Frame(s[e..]);
      Framed([s[..e]] + r.messages, r.leftover)
  }

  // ---------- pieces of any size ----------

  /** A trailer found in a prefix is the one found in the whole. */
  lemma {:induction false} SearchExtends(a: seq<Byte>, b: seq<Byte>, i: nat)
    requires Search(a, i) != -1
    ensures Search(a + b, i) == Search(a, i)
    decreases |a| - i
  {
    assert LooksLikeTrailer(a, i) <==> LooksLikeTrailer(a + b, i);
    if !LooksLikeTrailer(a, i) {
      SearchExtends(a, b, i + 1);
    }
  }

  /** And one found in the whole that ends in a prefix is found in the prefix. */
  lemma {:induction false} SearchWithin(a: seq<Byte>, b: seq<Byte>, i: nat)
    requires Search(a + b, i) != -1 && Search(a + b, i) <= |a|
    ensures Search(a, i) == Search(a + b, i)
    decreases |a| - i
  {
    assert LooksLikeTrailer(a, i) <==> LooksLikeTrailer(a + b, i) || i + 6 >= |a|;
    if !LooksLikeTrailer(a + b, i) {
      SearchWithin(a, b, i + 1);
    }
  }

  /** Framing what has arrived, and later what is left of it with what arrives then, is framing it all at once. */
  lemma {:induction false} FrameSplits(a: seq<Byte>, b: seq<Byte>)
    ensures var first := Frame(a); var second := Frame(first.leftover + b);
      Frame(a + b) == Framed(first.messages + second.messages, second.leftover)
    decreases |a|
  {
    var e := Search(a, 0);
    if e == -1 {
      assert [] + Frame(a + b).messages == Frame(a + b).messages;
    } else {
      SearchExtends(a, b, 0);
      assert (a + b)[..e] == a[..e] && (a + b)[e..] == a[e..] + b;
      FrameSplits(a[e..], b);
      var first := Frame(a[e..]);
      var second := Frame(first.leftover + b);
      assert [a[..e]] + (first.messages + second.messages) == [a[..e]] + first.messages + second.messages;
    }
  }

  function Concat(chunks: seq<seq<Byte>>): seq<Byte> {
    if chunks == [] then [] else chunks[0] + Concat(chunks[1..])
  }

  /** The loop over reads: each piece is framed together with what earlier ones left. */
  function FrameReads(buffer: seq<Byte>, pieces: seq<seq<Byte>>): Framed
    decreases |pieces|
  {
    if pieces == [] then Framed([], buffer)
    else
      var now := Frame(buffer + pieces[0]);
      var later := FrameReads(now.leftover, pieces[1..]);
      Framed(now.messages + later.messages, later.leftover)
  }

  lemma {:induction false} FrameReadsFrom(buffer: seq<Byte>, pieces: seq<seq<Byte>>)
    requires Frame(buffer) == Framed([], buffer)
    ensures FrameReads(buffer, pieces) == Frame(buffer + Concat(pieces))
    decreases |pieces|
  {
    if pieces == [] {
      assert buffer + [] == buffer;
    } else {
      var now := Frame(buffer + pieces[0]);
      LeftoverSettled(buffer + pieces[0]);
      FrameReadsFrom(now.leftover, pieces[1..]);
      FrameSplits(buffer + pieces[0], Concat(pieces[1..]));
      assert buffer + pieces[0] + Concat(pieces[1..]) == buffer + Concat(pieces);
    }
  }

  /** What framing leaves over holds no trailer. */
  lemma {:induction false} LeftoverSettled(s: seq<Byte>)
    ensures Frame(Frame(s).leftover) == Framed([], Frame(s).leftover)
    decreases |s|
  {
    if Search(s, 0) != -1 {
      LeftoverSettled(s[Search(s, 0)..]);
    }
  }

  /** The framing of a stream is the one way to write it as messages, each with its first trailer at its end, and a
      rest without a trailer. */
  lemma {:induction false} FrameIs(s: seq<Byte>, messages: seq<seq<Byte>>, rest: seq<Byte>)
    ensures Frame(s) == Framed(messages, rest) <==>
      s == Concat(messages) + rest && (forall m :: m in messages ==> Search(m, 0) == |m|) && Search(rest, 0) == -1
    decreases |s|, |messages|
  {
    var e := Search(s, 0);
    if messages == [] {
      assert [] + rest == rest;
    } else {
      var m, later := messages[0], messages[1..];
      assert messages == [m] + later && m in messages && forall x :: x in messages <==> x == m || x in later;
      assert Concat(messages) + rest == m + (Concat(later) + rest);
      if Frame(s) == Framed(messages, rest) {
        assert e != -1 && m == s[..e] && Frame(s[e..]) == Framed(later, rest) && s == m + s[e..];
        SearchWithin(m, s[e..], 0);
        FrameIs(s[e..], later, rest);
      } else if s == Concat(messages) + rest && Search(m, 0) == |m| {
        SearchExtends(m, Concat(later) + rest, 0);
        assert s[..e] == m && s[e..] == Concat(later) + rest;
        FrameIs(s[e..], later, rest);
      }
    }
  }

  /** However a stream is cut into pieces, the messages and the leftover are those of the whole stream. */
  lemma ChunkingIrrelevant(pieces: seq<seq<Byte>>)
    ensures FrameReads([], pieces) == Frame(Concat(pieces))
  {
    assert [] + Concat(pieces) == Concat(pieces);
    FrameReadsFrom([], pieces);
  }

  // ---------- recovering a concatenation ----------

  /** Concatenated messages come out as they went in exactly when each has its first trailer at its end. */
  lemma {:induction false} Recovered(messages: seq<seq<Byte>>)
    ensures Frame(Concat(messages)) == Framed(messages, []) <==> forall m :: m in messages ==> Search(m, 0) == |m|
    decreases |messages|
  {
    if messages != [] {
      var m, rest := messages[0], Concat(messages[1..]);
      var s := Concat(messages);
      Recovered(messages[1..]);
      if Search(m, 0) == |m| {
        SearchExtends(m, rest, 0);
        assert s[..|m|] == m && s[|m|..] == rest;
        assert [m] + messages[1..] == messages;
        assert forall x :: x in messages <==> x == m || x in messages[1..];
      } else {
        assert m in messages;
        if Frame(s) == Framed(messages, []) {
          var e := Search(s, 0);
          assert e != -1 && s[..e] == m;
          SearchWithin(m, rest, 0);
          assert false;
        }
      }
    }
  }

  // ---------- when a printed message has its first trailer at its end ----------

  /** A field whose text ends like a trailer. */
  predicate EndsLikeTrailer(f: seq<Byte>) {
    7 <= |f| && LooksLikeTrailer(f, |f| - 7)
  }

  lemma {:induction false} SearchShift(f: seq<Byte>, rest: seq<Byte>, j: nat)
    ensures Search(f + rest, |f| + j) == if Search(rest, j) == -1 then -1 else |f| + Search(rest, j)
    decreases |rest| - j
  {
    if j + 7 <= |rest| {
      assert LooksLikeTrailer(f + rest, |f| + j) <==> LooksLikeTrailer(rest, j);
      if !LooksLikeTrailer(rest, j) {
        SearchShift(f, rest, j + 1);
      }
    }
  }

  /** In front of the rest stands a field, whose only SOH is its last byte: a trailer is its end, or after it. */
  lemma {:induction false} SearchField(g: seq<Byte>, rest: seq<Byte>, i: nat)
    requires SOH !in g && i <= |g| + 1
    ensures var f := g + [SOH];
      Search(f + rest, i) ==
        if i + 7 <= |f| && EndsLikeTrailer(f) then |f|
        else if Search(rest, 0) == -1 then -1 else |f| + Search(rest, 0)
    decreases |g| + 1 - i
  {
    var f := g + [SOH];
    var s := f + rest;
    if i == |f| {
      SearchShift(f, rest, 0);
    } else {
      assert s[|g|] == SOH;
      if LooksLikeTrailer(s, i) {
        assert i + 6 >= |g|;
        assert i + 6 == |g|;
        assert LooksLikeTrailer(f, i);
      } else {
        assert i + 6 == |g| ==> !LooksLikeTrailer(f, i);
        SearchField(g, rest, i + 1);
      }
    }
  }

  /** No field but the framing ones ends like a trailer. */
  ghost predicate NoLookalike(fields: seq<Entry>) {
    forall e :: e in fields && !IsFraming(e.tag) ==> !EndsLikeTrailer(Field(e.tag, e.value))
  }

  /** A printed field in front of the rest. */
  lemma SearchPrinted(tag: int, value: seq<Byte>, rest: seq<Byte>)
    requires SOH !in value
    ensures var f := Field(tag, value);
      Search(f + rest, 0) == if EndsLikeTrailer(f) then |f| else if Search(rest, 0) == -1 then -1 else |f| + Search(rest, 0)
  {
    DecimalClean(tag);
    var g := Decimal(tag) + [EQUALS] + value;
    SearchField(g, rest, 0);
    assert Field(tag, value) == g + [SOH];
  }

  lemma {:induction false} SearchBody(fields: seq<Entry>, rest: seq<Byte>)
    requires Clean(fields) && Search(rest, 0) == |rest|
    ensures Search(Body(fields) + rest, 0) == |Body(fields) + rest| <==> NoLookalike(fields)
    ensures Search(Body(fields) + rest, 0) != -1
    decreases |fields|
  {
    hide Field, EndsLikeTrailer, Body, Search;
    if fields == [] {
      NoBody();
      assert [] + rest == rest;
    } else {
      var e := fields[0];
      var later := Body(fields[1..]) + rest;
      assert e in fields;
      BodyNext(fields, 0);
      assert fields[0..] == fields && fields[0 + 1..] == fields[1..];
      assert forall x :: x in fields <==> x == e || x in fields[1..];
      SearchBody(fields[1..], rest);
      if !IsFraming(e.tag) {
        assert Body(fields) + rest == Field(e.tag, e.value) + later;
        SearchPrinted(e.tag, e.value, later);
        LaterPositive(rest);
      }
    }
  }

  lemma LaterPositive(rest: seq<Byte>)
    requires Search(rest, 0) == |rest|
    ensures 7 <= |rest|
  {
  }

  lemma TrailerEnds(c: Byte)
    ensures var f := Field(10, Three(c)); EndsLikeTrailer(f) && Search(f, 0) == |f|
  {
    TrailerText(c);
  }

  lemma FramingFieldsEnd(n: nat)
    ensures !EndsLikeTrailer(Field(8, FIX44)) && !EndsLikeTrailer(Field(9, Decimal(n)))
  {
    assert Decimal(8) == [56] && Decimal(9) == [57];
    LookalikeFields(8, FIX44);
    LookalikeFields(9, Decimal(n));
    DecimalClean(n);
    var d := Decimal(n);
    assert 6 <= |d| ==> (d + [SOH])[|d| - 4] == d[|d| - 4] && d[|d| - 4] in d;
  }

  /** A printed message has its first trailer at its end exactly when none of its fields ends like one. */
  lemma IntactMessage(fields: seq<Entry>)
    requires Clean(fields)
    ensures Search(Message(fields), 0) == |Message(fields)| <==> NoLookalike(fields)
  {
    hide Field, EndsLikeTrailer, Body, Search, Three, Checksum, Decimal, Message;
    var b := Body(fields);
    var c := Checksum(Head(b) + b);
    var trailer := Field(10, Three(c));
    MessageParts(fields);
    TrailerEnds(c);
    SearchBody(fields, trailer);
    FramingFieldsEnd(|b|);
    DecimalClean(|b|);
    SearchPrinted(9, Decimal(|b|), b + trailer);
    SearchPrinted(8, FIX44, Field(9, Decimal(|b|)) + (b + trailer));
  }

  /** A field ends like a trailer in two ways: three digits under a tag that ends in 10, or a value that itself
      ends in 10=ddd. */
  lemma LookalikeFields(tag: int, value: seq<Byte>)
    ensures var d, n := Decimal(tag), |value|;
      EndsLikeTrailer(Field(tag, value)) <==>
        || (n == 3 && IsDigit(value[0]) && IsDigit(value[1]) && IsDigit(value[2])
            && 2 <= |d| && d[|d| - 2] == ONE && d[|d| - 1] == ZERO)
        || (6 <= n && LooksLikeTrailer(value + [SOH], n - 6))
  {
    var d, n := Decimal(tag), |value|;
    var f := Field(tag, value);
    assert |f| == |d| + 1 + n + 1;
    assert forall k :: 0 <= k < |d| ==> f[k] == d[k];
    assert f[|d|] == EQUALS && f[|f| - 1] == SOH;
    assert forall k :: 0 <= k < n ==> f[|d| + 1 + k] == value[k];
  }

  /** So a message whose tag 210 holds 100 does not come out of the stream it went into. */
  lemma MaxShowSplits(fields: seq<Entry>)
    requires Clean(fields) && Entry(210, [ONE, ZERO, ZERO]) in fields
    ensures Frame(Message(fields)) != Framed([Message(fields)], [])
  {
    assert Digits(2) == [50] && Digits(21) == [50, ONE] && Decimal(210) == [50, ONE, ZERO];
    LookalikeFields(210, [ONE, ZERO, ZERO]);
    IntactMessage(fields);
    hide Digits, Decimal, Message, Search, Clean, Frame;
    Recovered([Message(fields)]);
    assert [Message(fields)][1..] == [];
    assert Concat([Message(fields)]) == Message(fields) + [];
    assert Message(fields) + [] == Message(fields);
  }

  function Printed(batch: seq<seq<Entry>>): (r: seq<seq<Byte>>)
    ensures |r| == |batch| && forall i :: 0 <= i < |r| ==> r[i] == Message(batch[i])
  {
    if batch == [] then [] else [Message(batch[0])] + Printed(batch[1..])
  }

  /** Printed messages, sent one after the other and read in whatever pieces, come out as they went in exactly
      when no field of any of them ends like a trailer. */
  lemma PrintedMessagesRecovered(batch: seq<seq<Entry>>, pieces: seq<seq<Byte>>)
    requires forall fields :: fields in batch ==> Clean(fields)
    requires Concat(pieces) == Concat(Printed(batch))
    ensures FrameReads([], pieces) == Framed(Printed(batch), []) <==> forall fields :: fields in batch ==> NoLookalike(fields)
  {
    hide Message, Frame, FrameReads, Concat, NoLookalike, Search, Clean, Printed;
    ChunkingIrrelevant(pieces);
    Recovered(Printed(batch));
    forall i | 0 <= i < |batch| ensures Search(Printed(batch)[i], 0) == |Printed(batch)[i]| <==> NoLookalike(batch[i]) {
      IntactMessage(batch[i]);
    }
    if forall fields :: fields in batch ==> NoLookalike(fields) {
      forall m | m in Printed(batch) ensures Search(m, 0) == |m| {
        var i :| 0 <= i < |batch| && Printed(batch)[i] == m;
        assert batch[i] in batch;
      }
    }
    if forall m :: m in Printed(batch) ==> Search(m, 0) == |m| {
      forall fields | fields in batch ensures NoLookalike(fields) {
        var i :| 0 <= i < |batch| && batch[i] == fields;
        assert Printed(batch)[i] in Printed(batch);
      }
    }
  }

  // ---------- the loop ----------

  /** The reassembly state of one client connection. */
  class ClientStream {
    var messageBuffer: seq<Byte>

    constructor ()
      ensures messageBuffer == []
    {
      messageBuffer := [];
    }

    /** Where the first message at or after pos ends, or -1. */
    method FindEnd(pos: nat) returns (msgEnd: int)
      requires pos <= |messageBuffer|
      ensures msgEnd == Search(messageBuffer, pos)
    {
      msgEnd := -1;
      var i := pos;
      while i + 6 < |messageBuffer|
        invariant pos <= i && (i <= |messageBuffer|) && Search(messageBuffer, pos) == Search(messageBuffer, i)
      {
        if messageBuffer[i] == ONE && messageBuffer[i + 1] == ZERO && messageBuffer[i + 2] == EQUALS
           && IsDigit(messageBuffer[i + 3]) && IsDigit(messageBuffer[i + 4]) && IsDigit(messageBuffer[i + 5])
           && messageBuffer[i + 6] == SOH
        {
          msgEnd := i + 7;
          break;
        }
        i := i + 1;
      }
    }

    /** One pass of the read loop: the messages completed by what was read. */
    method Receive(bytes: seq<Byte>) returns (messages: seq<seq<Byte>>)
      modifies this
      ensures Framed(messages, messageBuffer) == Frame(old(messageBuffer) + bytes)
    {
      hide Search, LooksLikeTrailer;
      messageBuffer := messageBuffer + bytes;
      messages := [];
      var pos := 0;
      assert messageBuffer[0..] == messageBuffer;
      while pos < |messageBuffer|
        invariant pos <= |messageBuffer| && messageBuffer == old(messageBuffer) + bytes
        invariant Frame(messageBuffer) ==
          Framed(messages + Frame(messageBuffer[pos..]).messages, Frame(messageBuffer[pos..]).leftover)
      {
        var msgEnd := FindEnd(pos);
        SearchSuffix(messageBuffer, pos);
        if msgEnd == -1 {
          assert messages + [] == messages;
          break;
        }
        assert messageBuffer[pos..][..msgEnd - pos] == messageBuffer[pos..msgEnd];
        assert messageBuffer[pos..][msgEnd - pos..] == messageBuffer[msgEnd..];
        messages := messages + [messageBuffer[pos..msgEnd]];
        pos := msgEnd;
      }
      assert Frame(messageBuffer) == Framed(messages, messageBuffer[pos..]);
      if pos > 0 {
        messageBuffer := messageBuffer[pos..];
      }
    }
  }

  lemma SearchSuffix(s: seq<Byte>, pos: nat)
    requires pos <= |s|
    ensures Search(s, pos) == if Search(s[pos..], 0) == -1 then -1 else pos + Search(s[pos..], 0)
  {
    assert s[..pos] + s[pos..] == s;
    SearchShift(s[..pos], s[pos..], 0);
  }
}
