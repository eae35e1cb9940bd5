/** Writing packets into a buffer. */
module CoapSerialize {
  import opened Octets
  import opened Arith
  import opened CoapOption
  import opened CoapText
  import opened CoapInt
  import opened CoapMessage
  import opened CoapPacket

  /** The first at bytes of the buffer are as they were, and e follows them. */
  ghost predicate Appended(was: seq<byte>, now: seq<byte>, at: nat, e: seq<byte>) {
    at + |e| <= |was| == |now| && now[..at + |e|] == was[..at] + e
  }

  lemma AppendedTwice(a: seq<byte>, b: seq<byte>, c: seq<byte>, at: nat, e: seq<byte>, f: seq<byte>)
    requires Appended(a, b, at, e) && Appended(b, c, at + |e|, f)
    ensures Appended(a, c, at, e + f)
  {
    assert c[..at + |e + f|] == b[..at + |e|] + f == a[..at] + (e + f);
  }

  lemma AppendedNone(a: seq<byte>, at: nat)
    requires at <= |a|
    ensures Appended(a, a, at, [])
  {
  }

  /** memcpy. */
  method Copy(buffer: array<byte>, at: nat, e: seq<byte>)
    requires at + |e| <= buffer.Length
    modifies buffer
    ensures Appended(old(buffer[..]), buffer[..], at, e)
  {
    forall i | 0 <= i < |e| {
      buffer[at + i] := e[i];
    }
    assert buffer[..at] == old(buffer[..])[..at] && buffer[at..at + |e|] == e;
    assert buffer[..][..at + |e|] == buffer[..at] + buffer[at..at + |e|];
  }

  /** coap_set_option_header. */
  method SetOptionHeader(buffer: array<byte>, at: nat, delta: nat, length: nat) returns (written: nat)
    requires at + |Header(delta, length)| <= buffer.Length
    modifies buffer
    ensures Appended(old(buffer[..]), buffer[..], at, Header(delta, length)) && written == |Header(delta, length)|
  {
    hide Appended;
    ghost var was := buffer[..];
    ghost var done: seq<byte> := [Nibble(delta) * 16 + Nibble(length)];
    Copy(buffer, at, [Nibble(delta) * 16 + Nibble(length)]);
    written := 1;
    for pass := 0 to 2
      invariant written == |done| && Appended(was, buffer[..], at, done)
      invariant done == [Nibble(delta) * 16 + Nibble(length)]
        + (if pass > 0 then Extra(delta) else []) + (if pass > 1 then Extra(length) else [])
    {
      var x := if pass == 0 then delta else length;
      ghost var now := buffer[..];
      if x > 268 {
        Copy(buffer, at + written, [(x - 269) / 256 % 256, (x - 269) % 256]);
        written := written + 2;
      } else if x > 12 {
        Copy(buffer, at + written, [x - 13]);
        written := written + 1;
      } else {
        Within(was, now, at, done);
        AppendedNone(now, at + |done|);
      }
      AppendedTwice(was, now, buffer[..], at, done, Extra(x));
      done := done + Extra(x);
    }
  }

  lemma Within(was: seq<byte>, now: seq<byte>, at: nat, e: seq<byte>)
    requires Appended(was, now, at, e)
    ensures at + |e| <= |now| == |was|
  {
  }

  /** coap_serialize_int_option. */
  method SerializeInt(buffer: array<byte>, at: nat, number: nat, current: nat, value: nat) returns (i: nat)
    requires current <= number && value < WIDE && at + |Encode(current, Opt(number, IntBytes(value)))| <= buffer.Length
    modifies buffer
    ensures Appended(old(buffer[..]), buffer[..], at, Encode(current, Opt(number, IntBytes(value))))
    ensures i == |Encode(current, Opt(number, IntBytes(value)))|
  {
    hide Appended, Header;
    ghost var was := buffer[..];
    i := 0;
    if value >= 0x100_0000 { i := i + 1; }
    if value >= 0x1_0000 { i := i + 1; }
    if value >= 0x100 { i := i + 1; }
    if value >= 1 { i := i + 1; }
    ghost var h := Header(number - current, i);
    i := SetOptionHeader(buffer, at, number - current, i);
    ghost var now := buffer[..];
    var b: seq<byte> := if value >= 0x100_0000 then [value / 0x100_0000 % 256] else [];
    b := b + if value >= 0x1_0000 then [value / 0x1_0000 % 256] else [];
    b := b + if value >= 0x100 then [value / 0x100 % 256] else [];
    b := b + if value >= 1 then [value % 256] else [];
    assert b == IntBytes(value);
    Copy(buffer, at + i, b);
    AppendedTwice(was, now, buffer[..], at, h, b);
    i := i + |b|;
  }

  /** One option whose value is copied from elsewhere. */
  method SerializePart(buffer: array<byte>, at: nat, number: nat, current: nat, value: seq<byte>) returns (i: nat)
    requires current <= number && at + |Encode(current, Opt(number, value))| <= buffer.Length
    modifies buffer
    ensures Appended(old(buffer[..]), buffer[..], at, Encode(current, Opt(number, value)))
    ensures i == |Encode(current, Opt(number, value))|
  {
    hide Appended, Header;
    ghost var was := buffer[..];
    i := SetOptionHeader(buffer, at, number - current, |value|);
    ghost var now := buffer[..];
    Copy(buffer, at + i, value);
    AppendedTwice(was, now, buffer[..], at, Header(number - current, |value|), value);
    i := i + |value|;
  }

  /** The bytes of options of one number. */
  function RunBytes(current: nat, number: nat, vs: seq<seq<byte>>): seq<byte>
    requires current <= number
  {
    NumberedOrdered(current, number, vs);
    EncodeAll(current, Numbered(number, vs))
  }

  lemma RunNext(current: nat, number: nat, vs: seq<seq<byte>>)
    requires current <= number && vs != []
    ensures RunBytes(current, number, vs) == Encode(current, Opt(number, vs[0])) + RunBytes(number, number, vs[1..])
  {
    assert Numbered(number, vs)[1..] == Numbered(number, vs[1..]);
  }

  lemma RunNone(current: nat, number: nat)
    requires current <= number
    ensures RunBytes(current, number, []) == []
  {
  }

  /** coap_serialize_array_option with a separator: one option for every part of the text. */
  method SerializeText(buffer: array<byte>, at: nat, number: nat, current: nat, text: seq<byte>, splitChar: byte)
    returns (i: nat)
    requires current <= number && at + |RunBytes(current, number, Parts(text, splitChar))| <= buffer.Length
    modifies buffer
    ensures Appended(old(buffer[..]), buffer[..], at, RunBytes(current, number, Parts(text, splitChar)))
    ensures i == |RunBytes(current, number, Parts(text, splitChar))|
  {
    hide Appended, Encode, RunBytes;
    ghost var was, all := buffer[..], RunBytes(current, number, Parts(text, splitChar));
    ghost var done: seq<byte> := [];
    AppendedNone(was, at);
    i := 0;
    var cur: nat, start: nat, j: nat := current, 0, 0;
    while j <= |text|
      invariant 0 <= start <= j && start <= |text| + 1 && cur <= number && i == |done|
      invariant Appended(was, buffer[..], at, done)
      invariant all == done + RunBytes(cur, number, PartsFrom(text, splitChar, start, j))
      decreases |text| + 1 - j
    {
      if j == |text| || text[j] == splitChar {
        ghost var ps, now := PartsFrom(text, splitChar, start, j), buffer[..];
        RunNext(cur, number, ps);
        assert ps[0] == text[start..j] && ps[1..] == PartsFrom(text, splitChar, j + 1, j + 2);
        var n := SerializePart(buffer, at + i, number, cur, text[start..j]);
        ghost var e := Encode(cur, Opt(number, text[start..j]));
        AppendedTwice(was, now, buffer[..], at, done, e);
        Assoc(done, e, RunBytes(number, number, ps[1..]));
        done := done + e;
        i := i + n;
        j := j + 1;
        cur := number;
        start := j;
      }
      j := j + 1;
    }
    RunNone(cur, number);
    assert done + [] == done;
  }

  /**
   * Before the option in place k: what is written, and what is still to be written after an option of number current.
   */
  ghost predicate Writing(p: Msg, k: nat, d: seq<byte>, current: nat)
    requires Ranged(p) && k <= |ORDER|
  {
    && (k < |ORDER| ==> current <= ORDER[k])
    && Ordered(current, SentFrom(p, k))
    && d + EncodeAll(current, SentFrom(p, k)) == Head(p)
  }

  lemma WritingStarts(p: Msg, d: seq<byte>)
    requires Ranged(p) && d == Lead(p) + p.token
    ensures Writing(p, 0, d, 0)
  {
    SentOrdered(p, 0, 0);
  }

  lemma WritingEnds(p: Msg, d: seq<byte>, current: nat)
    requires Ranged(p) && Writing(p, |ORDER|, d, current)
    ensures d == Head(p)
  {
    assert d + [] == d;
  }

  /** The values of the next option, if it is set. */
  function NextBytes(p: Msg, k: nat, current: nat): seq<byte>
    requires Ranged(p) && k < |ORDER| && current <= ORDER[k]
  {
    RunBytes(current, ORDER[k], Values(p, ORDER[k]))
  }

  lemma NotSet(p: Msg, k: nat, d: seq<byte>, current: nat)
    requires Ranged(p) && k < |ORDER| && Writing(p, k, d, current) && ORDER[k] !in p.options
    ensures Writing(p, k + 1, d, current)
  {
    assert SentFrom(p, k) == SentFrom(p, k + 1);
    if k + 1 < |ORDER| {
      OrderIncreases(k, k + 1);
    }
  }

  /** The next option has room, and once it is written the one after it is next. */
  lemma IsSet(p: Msg, k: nat, d: seq<byte>, current: nat)
    requires Ranged(p) && k < |ORDER| && Writing(p, k, d, current) && ORDER[k] in p.options
    ensures var n := ORDER[k];
      && current <= n && |d| + |NextBytes(p, k, current)| <= |Head(p)|
      && Writing(p, k + 1, d + NextBytes(p, k, current), if Values(p, n) == [] then current else n)
  {
    hide ORDER, Values, EncodeAll;
    var n := ORDER[k];
    var a, b := Sent(p, n), SentFrom(p, k + 1);
    var last := if Values(p, n) == [] then current else n;
    NumberedOrdered(current, n, Values(p, n));
    assert last == Last(current, a);
    if k + 1 < |ORDER| {
      OrderIncreases(k, k + 1);
    }
    SentOrdered(p, k + 1, last);
    EncodeSplit(current, a, b);
    Assoc(d, EncodeAll(current, a), EncodeAll(last, b));
  }

  lemma AppendedTo(was: seq<byte>, now: seq<byte>, at: nat, e: seq<byte>)
    requires Appended(was, now, at, e)
    ensures now[..at + |e|] == was[..at] + e
  {
  }

  /** COAP_SERIALIZE_BYTE_OPTION, and COAP_SERIALIZE_STRING_OPTION without a splitter. */
  method PutBytes(p: Msg, ghost k: nat, number: nat, value: seq<byte>, buffer: array<byte>, option: nat, current: nat)
    returns (next: nat, last: nat)
    requires Ranged(p) && k < |ORDER| && number == ORDER[k] && Values(p, number) == [value]
    requires option <= |Head(p)| <= buffer.Length && Writing(p, k, buffer[..option], current)
    modifies buffer
    ensures next <= |Head(p)| && Writing(p, k + 1, buffer[..next], last)
  {
    hide Writing, Appended, Encode, RunBytes, Head, Ranged, Values, ORDER;
    next, last := option, current;
    if number in p.options {
      ghost var was := buffer[..];
      IsSet(p, k, was[..option], current);
      RunOne(current, number, value);
      var n := SerializePart(buffer, option, number, current, value);
      AppendedTo(was, buffer[..], option, Encode(current, Opt(number, value)));
      next, last := option + n, number;
    } else {
      NotSet(p, k, buffer[..option], current);
    }
  }

  lemma RunOne(current: nat, number: nat, v: seq<byte>)
    requires current <= number
    ensures RunBytes(current, number, [v]) == Encode(current, Opt(number, v))
  {
    hide Encode;
    RunNext(current, number, [v]);
    RunNone(number, number);
  }

  /** COAP_SERIALIZE_INT_OPTION. */
  method PutInt(p: Msg, ghost k: nat, number: nat, value: nat, buffer: array<byte>, option: nat, current: nat)
    returns (next: nat, last: nat)
    requires Ranged(p) && k < |ORDER| && number == ORDER[k] && value < WIDE && Values(p, number) == [IntBytes(value)]
    requires option <= |Head(p)| <= buffer.Length && Writing(p, k, buffer[..option], current)
    modifies buffer
    ensures next <= |Head(p)| && Writing(p, k + 1, buffer[..next], last)
  {
    hide Writing, Appended, Encode, RunBytes, Head, Ranged, Values, ORDER, IntBytes;
    next, last := option, current;
    if number in p.options {
      ghost var was := buffer[..];
      IsSet(p, k, was[..option], current);
      RunOne(current, number, IntBytes(value));
      var n := SerializeInt(buffer, option, number, current, value);
      AppendedTo(was, buffer[..], option, Encode(current, Opt(number, IntBytes(value))));
      next, last := option + n, number;
    } else {
      NotSet(p, k, buffer[..option], current);
    }
  }

  /** COAP_SERIALIZE_STRING_OPTION with a splitter. */
  method PutText(p: Msg, ghost k: nat, number: nat, text: seq<byte>, splitter: byte, buffer: array<byte>, option: nat,
    current: nat)
    returns (next: nat, last: nat)
    requires Ranged(p) && k < |ORDER| && number == ORDER[k] && Values(p, number) == Parts(text, splitter)
    requires option <= |Head(p)| <= buffer.Length && Writing(p, k, buffer[..option], current)
    modifies buffer
    ensures next <= |Head(p)| && Writing(p, k + 1, buffer[..next], last)
  {
    hide Writing, Appended, Encode, RunBytes, Head, Ranged, Values, ORDER, Parts;
    next, last := option, current;
    if number in p.options {
      ghost var was := buffer[..];
      IsSet(p, k, was[..option], current);
      SomeParts(text, splitter);
      var n := SerializeText(buffer, option, number, current, text, splitter);
      AppendedTo(was, buffer[..], option, RunBytes(current, number, Parts(text, splitter)));
      next, last := option + n, number;
    } else {
      NotSet(p, k, buffer[..option], current);
    }
  }

  lemma SomeParts(text: seq<byte>, splitter: byte)
    ensures Parts(text, splitter) != []
  {
    SomePart(text, splitter, 0, 0);
  }

  /** COAP_SERIALIZE_ACCEPT_OPTION. */
  method PutAccept(p: Msg, ghost k: nat, number: nat, buffer: array<byte>, option: nat, current: nat)
    returns (next: nat, last: nat)
    requires Ranged(p) && k < |ORDER| && number == ORDER[k] == ACCEPT
    requires option <= |Head(p)| <= buffer.Length && Writing(p, k, buffer[..option], current)
    modifies buffer
    ensures next <= |Head(p)| && Writing(p, k + 1, buffer[..next], last)
  {
    hide Writing, Appended, Encode, RunBytes, Head, ORDER, IntBytes, Ints;
    next, last := option, current;
    if number in p.options {
      ghost var was, vs := buffer[..], Ints(p.accept);
      IsSet(p, k, was[..option], current);
      ghost var all: seq<byte> := RunBytes(current, number, vs);
      ghost var done: seq<byte> := [];
      AppendedNone(was, option);
      for i := 0 to |p.accept|
        invariant next == option + |done| && last == (if i == 0 then current else number)
        invariant Appended(was, buffer[..], option, done)
        invariant all == done + RunBytes(last, number, vs[i..])
      {
        ghost var now := buffer[..];
        IntAt(p.accept, i);
        RunNext(last, number, vs[i..]);
        ghost var e := Encode(last, Opt(number, IntBytes(p.accept[i])));
        Assoc(done, e, RunBytes(number, number, vs[i + 1..]));
        var n := SerializeInt(buffer, next, number, last, p.accept[i]);
        AppendedTwice(was, now, buffer[..], option, done, e);
        done := done + e;
        next, last := next + n, number;
      }
      RunNone(last, number);
      assert done + [] == done && vs[|p.accept|..] == [];
      AppendedTo(was, buffer[..], option, all);
    } else {
      NotSet(p, k, buffer[..option], current);
    }
  }

  lemma IntAt(vs: seq<nat>, i: nat)
    requires i < |vs|
    ensures |Ints(vs)| == |vs| && Ints(vs)[i..][0] == IntBytes(vs[i]) && Ints(vs)[i..][1..] == Ints(vs)[i + 1..]
  {
  }

  /** COAP_SERIALIZE_BLOCK_OPTION. */
  method PutBlock(p: Msg, ghost k: nat, number: nat, b: Block, buffer: array<byte>, option: nat, current: nat)
    returns (next: nat, last: nat)
    requires Ranged(p) && k < |ORDER| && number == ORDER[k] && b.size < 0x1_0000
    requires Values(p, number) == [IntBytes(BlockValue(b))]
    requires option <= |Head(p)| <= buffer.Length && Writing(p, k, buffer[..option], current)
    modifies buffer
    ensures next <= |Head(p)| && Writing(p, k + 1, buffer[..next], last)
  {
    hide Writing, Head, Ranged, Values, ORDER, IntBytes, IsLog, SizeExponent;
    var block := b.num * 16 % WIDE;
    var log := Log2(b.size / 16);
    LogUnique(b.size / 16, log, SizeExponent(b.size));
    if b.more || log >= 8 {
      block := block + 8;
    }
    block := block + log % 8;
    next, last := PutInt(p, k, number, block, buffer, option, current);
  }

  lemma Numbers()
    ensures |ORDER| == 17 && ORDER[0] == IF_MATCH && ORDER[1] == URI_HOST && ORDER[2] == ETAG
    ensures ORDER[3] == IF_NONE_MATCH
    ensures ORDER[4] == OBSERVE && ORDER[5] == URI_PORT && ORDER[6] == LOCATION_PATH && ORDER[7] == URI_PATH
    ensures ORDER[8] == CONTENT_TYPE && ORDER[9] == MAX_AGE && ORDER[10] == URI_QUERY && ORDER[11] == ACCEPT
    ensures ORDER[12] == LOCATION_QUERY && ORDER[13] == BLOCK2 && ORDER[14] == BLOCK1 && ORDER[15] == SIZE
    ensures ORDER[16] == PROXY_URI
  {
  }

  /** Type, code, message id and token. */
  method PutLead(p: Msg, buffer: array<byte>) returns (option: nat)
    requires Ranged(p) && |Head(p)| <= buffer.Length
    modifies buffer
    ensures option <= |Head(p)| && Writing(p, 0, buffer[..option], 0)
  {
    hide Writing, OptionBytes;
    buffer[0] := 0x40 + p.kind * 16 + |p.token|;
    buffer[1] := p.code;
    buffer[2] := p.mid / 256;
    buffer[3] := p.mid % 256;
    option := HEADER_LEN;
    for i := 0 to |p.token|
      invariant option == HEADER_LEN + i && buffer[..option] == Lead(p) + p.token[..i]
    {
      buffer[option] := p.token[i];
      option := option + 1;
    }
    assert p.token[..|p.token|] == p.token;
    WritingStarts(p, buffer[..option]);
  }

  /** The marker and the payload. */
  method PutPayload(buffer: array<byte>, option: nat, payload: seq<byte>) returns (length: nat)
    requires option + |Tail(payload)| <= buffer.Length
    modifies buffer
    ensures length == option + |Tail(payload)| && buffer[..length] == old(buffer[..option]) + Tail(payload)
  {
    var at := option;
    if payload != [] {
      buffer[at] := 0xFF;
      at := at + 1;
    }
    assert buffer[..at] == old(buffer[..option]) + (if payload == [] then [] else [0xFF]);
    Copy(buffer, at, payload);
    length := at + |payload|;
  }

  /** The first eight options. */
  method PutFirst(p: Msg, buffer: array<byte>, option: nat) returns (o: nat, c: nat)
    requires Ranged(p) && option <= |Head(p)| <= buffer.Length && Writing(p, 0, buffer[..option], 0)
    modifies buffer
    ensures o <= |Head(p)| && Writing(p, 8, buffer[..o], c)
  {
    hide Writing, Head, ORDER, IntBytes, Parts, BlockValue;
    Numbers();
    o, c := PutBytes(p, 0, IF_MATCH, p.ifMatch, buffer, option, 0);
    o, c := PutBytes(p, 1, URI_HOST, p.uriHost, buffer, o, c);
    o, c := PutBytes(p, 2, ETAG, p.etag, buffer, o, c);
    o, c := PutInt(p, 3, IF_NONE_MATCH, 0, buffer, o, c);
    o, c := PutInt(p, 4, OBSERVE, p.observe, buffer, o, c);
    o, c := PutInt(p, 5, URI_PORT, p.uriPort, buffer, o, c);
    o, c := PutText(p, 6, LOCATION_PATH, p.locationPath, SLASH, buffer, o, c);
    o, c := PutText(p, 7, URI_PATH, p.uriPath, SLASH, buffer, o, c);
  }

  /** The others. */
  method PutLast(p: Msg, buffer: array<byte>, option: nat, current: nat) returns (o: nat, c: nat)
    requires Ranged(p) && option <= |Head(p)| <= buffer.Length && Writing(p, 8, buffer[..option], current)
    modifies buffer
    ensures o <= |Head(p)| && Writing(p, 17, buffer[..o], c)
  {
    hide Writing, Head, ORDER, IntBytes, Parts, BlockValue;
    Numbers();
    o, c := PutInt(p, 8, CONTENT_TYPE, p.contentType, buffer, option, current);
    o, c := PutInt(p, 9, MAX_AGE, p.maxAge, buffer, o, c);
    o, c := PutText(p, 10, URI_QUERY, p.uriQuery, AMPERSAND, buffer, o, c);
    o, c := PutAccept(p, 11, ACCEPT, buffer, o, c);
    o, c := PutText(p, 12, LOCATION_QUERY, p.locationQuery, AMPERSAND, buffer, o, c);
    o, c := PutBlock(p, 13, BLOCK2, p.block2, buffer, o, c);
    o, c := PutBlock(p, 14, BLOCK1, p.block1, buffer, o, c);
    o, c := PutInt(p, 15, SIZE, p.size, buffer, o, c);
    o, c := PutBytes(p, 16, PROXY_URI, p.proxyUri, buffer, o, c);
  }

  /**
   * coap_serialize_message: the packet, or 0 if what precedes the payload is too long.
   * The caller's buffer has to hold what is written even then.
   */
  method SerializeMessage(p: Msg, buffer: array<byte>) returns (length: nat)
    requires Ranged(p)
    requires |if |Head(p)| <= MAX_HEADER_SIZE then Packet(p) else Head(p)| <= buffer.Length
    modifies buffer
    ensures |Head(p)| > MAX_HEADER_SIZE ==> length == 0
    ensures |Head(p)| <= MAX_HEADER_SIZE ==> length == |Packet(p)| && buffer[..length] == Packet(p)
  {
    hide Writing, Head, ORDER, Ranged;
    Numbers();
    var option := PutLead(p, buffer);
    var current;
    option, current := PutFirst(p, buffer, option);
    option, current := PutLast(p, buffer, option, current);
    WritingEnds(p, buffer[..option], current);
    if option <= MAX_HEADER_SIZE {
      length := PutPayload(buffer, option, p.payload);
    } else {
      length := 0;
    }
  }
}
