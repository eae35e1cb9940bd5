/** Reading a packet in the buffer it was received in: repeated text options are merged where they stand. */
module CoapParse {
  import opened Octets
  import opened Arith
  import opened CoapOption
  import opened CoapText
  import opened CoapInt
  import opened CoapMessage
  import opened CoapPacket

  /** Part of the receive buffer. */
  datatype Span = Span(pos: nat, len: nat)

  const NOWHERE := Span(0, 0)

  /** The packet structure: fields held by value, and texts that stay in the receive buffer. */
  datatype Held = Held(
    m: Msg, host: Span, locationPath: Span, uriPath: Span, uriQuery: Span, locationQuery: Span, payload: Span)

  function SpanOf(h: Held, n: nat): Span {
    if n == URI_HOST then h.host else if n == LOCATION_PATH then h.locationPath else if n == URI_PATH then h.uriPath
    else if n == URI_QUERY then h.uriQuery else h.locationQuery
  }

  function WithSpan(h: Held, n: nat, s: Span): Held {
    if n == URI_HOST then h.(host := s) else if n == LOCATION_PATH then h.(locationPath := s)
    else if n == URI_PATH then h.(uriPath := s) else if n == URI_QUERY then h.(uriQuery := s)
    else h.(locationQuery := s)
  }

  /** Options whose value stays in the buffer. */
  predicate InBuffer(n: nat) {
    n == URI_HOST || IsText(n)
  }

  function Slice(d: seq<byte>, s: Span): seq<byte> {
    if s.pos + s.len <= |d| then d[s.pos..s.pos + s.len] else []
  }

  /** What the structure says, the buffer being d. */
  function View(h: Held, d: seq<byte>): Msg {
    h.m.(uriHost := Slice(d, h.host), locationPath := Slice(d, h.locationPath), uriPath := Slice(d, h.uriPath),
      uriQuery := Slice(d, h.uriQuery), locationQuery := Slice(d, h.locationQuery), payload := Slice(d, h.payload))
  }

  /**
   * After an option of the given number, with the next one at position at: texts lie before it, in the order of their
   * numbers, and none has a larger number.
   */
  ghost predicate Tidy(h: Held, number: nat, at: nat) {
    && h.payload == NOWHERE
    && (forall n: nat {:trigger SpanOf(h, n)} :: InBuffer(n) ==> EndsBy(SpanOf(h, n), at))
    && (forall n: nat {:trigger SpanOf(h, n)} :: InBuffer(n) && number < n ==> SpanOf(h, n).len == 0)
    && (forall a: nat, b: nat {:trigger SpanOf(h, a), SpanOf(h, b)} ::
          InBuffer(a) && InBuffer(b) && a < b ==> Before(SpanOf(h, a), SpanOf(h, b)))
  }

  predicate EndsBy(s: Span, at: nat) {
    s.pos + s.len <= at
  }

  predicate Before(s: Span, t: Span) {
    s.len == 0 || t.len == 0 || s.pos + s.len <= t.pos
  }

  lemma TidyLater(h: Held, number: nat, at: nat, number': nat, at': nat)
    requires Tidy(h, number, at) && number <= number' && at <= at'
    ensures Tidy(h, number', at')
  {
  }

  /** The two buffers agree from position at on. */
  ghost predicate SameFrom(a: seq<byte>, b: seq<byte>, at: nat) {
    |a| == |b| && forall i :: at <= i < |a| ==> a[i] == b[i]
  }

  ghost predicate SameUpTo(a: seq<byte>, b: seq<byte>, at: nat) {
    |a| == |b| && forall i :: 0 <= i < at && i < |a| ==> a[i] == b[i]
  }

  /** coap_parse_int_option. */
  method ParseInt(bytes: array<byte>, at: nat, length: nat) returns (v: nat)
    requires at + length <= bytes.Length
    ensures v == IntValue(bytes[at..at + length])
  {
    hide IntValue;
    v := 0;
    IntValue0();
    assert bytes[at..at + 0] == [];
    for i := 0 to length
      invariant v == IntValue(bytes[at..at + i]) && v < WIDE
    {
      IntValueNext(bytes[at..at + i], bytes[at + i]);
      ByteFits(v);
      assert bytes[at..at + i] + [bytes[at + i]] == bytes[at..at + i + 1];
      v := v * 256 % WIDE + bytes[at + i];
    }
  }

  /** length bytes at from are moved to position to. */
  function Moved(d: seq<byte>, to: nat, from: nat, length: nat): seq<byte>
    requires to + length <= |d| && from + length <= |d|
  {
    d[..to] + d[from..from + length] + d[to + length..]
  }

  /** memmove. */
  method Move(buffer: array<byte>, to: nat, from: nat, length: nat)
    requires to + length <= buffer.Length && from + length <= buffer.Length
    modifies buffer
    ensures buffer[..] == Moved(old(buffer[..]), to, from, length)
  {
    forall i | 0 <= i < length {
      buffer[to + i] := buffer[from + i];
    }
    assert buffer[..] == buffer[..to] + buffer[to..to + length] + buffer[to + length..];
  }

  lemma MoveMerges(d: seq<byte>, dst: Span, option: nat, length: nat, separator: byte)
    requires dst.pos + dst.len < option && option + length <= |d| && dst.len > 0
    ensures var at := dst.pos + dst.len;
      var r := Moved(d[at := separator], at + 1, option, length);
      && Slice(r, Span(dst.pos, dst.len + 1 + length)) == Merge(Slice(d, dst), d[option..option + length], separator)
      && SameFrom(r, d, option + length) && SameUpTo(r, d, at)
  {
    var at := dst.pos + dst.len;
    var e := d[at := separator];
    var r := Moved(e, at + 1, option, length);
    assert e[option..option + length] == d[option..option + length];
    assert r[..at + 1] == d[..at] + [separator] && r[at + 1..at + 1 + length] == d[option..option + length];
    assert r[dst.pos..at + 1 + length] == r[..at + 1][dst.pos..] + r[at + 1..at + 1 + length];
  }

  /** coap_merge_multi_option: the option begins after the text's end, with at least one byte between them. */
  method Merged(buffer: array<byte>, dst: Span, option: nat, length: nat, separator: byte) returns (r: Span)
    requires dst.pos + dst.len < option && option + length <= buffer.Length
    modifies buffer
    ensures r == if dst.len > 0 then Span(dst.pos, dst.len + 1 + length) else Span(option, length)
    ensures Slice(buffer[..], r) == Merge(Slice(old(buffer[..]), dst), old(buffer[option..option + length]), separator)
    ensures SameFrom(buffer[..], old(buffer[..]), option + length)
    ensures SameUpTo(buffer[..], old(buffer[..]), dst.pos + dst.len)
    ensures dst.len == 0 ==> buffer[..] == old(buffer[..])
  {
    hide Moved, Slice, Merge, SameFrom, SameUpTo;
    if dst.len > 0 {
      MoveMerges(buffer[..], dst, option, length, separator);
      buffer[dst.pos + dst.len] := separator;
      assert buffer[..] == old(buffer[..])[dst.pos + dst.len := separator];
      Move(buffer, dst.pos + dst.len + 1, option, length);
      r := Span(dst.pos, dst.len + 1 + length);
    } else {
      r := Span(option, length);
      NothingToMerge(buffer[..], dst, option, length, separator);
    }
  }

  lemma NothingToMerge(d: seq<byte>, dst: Span, option: nat, length: nat, separator: byte)
    requires dst.pos + dst.len < option && option + length <= |d| && dst.len == 0
    ensures Slice(d, Span(option, length)) == Merge(Slice(d, dst), d[option..option + length], separator)
    ensures SameFrom(d, d, option + length) && SameUpTo(d, d, dst.pos + dst.len)
  {
  }

  /** The options whose value the structure holds itself, and those it does not know. */
  method HandleValue(m: Msg, buffer: array<byte>, number: nat, option: nat, length: nat) returns (r: Msg, st: Status)
    requires option + length <= buffer.Length && !InBuffer(number)
    ensures (r, st) == Receive(m, number, buffer[option..option + length])
  {
    hide IntValue, ParseBlock;
    r, st := m.(options := m.options + {number}), NO_ERROR;
    ghost var v: seq<byte> := buffer[option..option + length];
    if number == CONTENT_TYPE {
      var i := ParseInt(buffer, option, length);
      r := r.(contentType := i);
    } else if number == MAX_AGE {
      var i := ParseInt(buffer, option, length);
      r := r.(maxAge := i);
    } else if number == ETAG {
      r := r.(etag := buffer[option..option + Least(ETAG_LEN, length)]);
      CutOf(buffer[..], option, length, ETAG_LEN);
    } else if number == ACCEPT {
      if |r.accept| < MAX_ACCEPT_NUM {
        var i := ParseInt(buffer, option, length);
        r := r.(accept := r.accept + [i % 0x1_0000]);
      }
    } else if number == IF_MATCH {
      r := r.(ifMatch := buffer[option..option + Least(ETAG_LEN, length)]);
      CutOf(buffer[..], option, length, ETAG_LEN);
    } else if number == IF_NONE_MATCH {
      r := r.(ifNoneMatch := true);
    } else if number == URI_PORT {
      var i := ParseInt(buffer, option, length);
      r := r.(uriPort := i % 0x1_0000);
    } else if number == PROXY_URI {
      r := r.(proxyUri := buffer[option..option + length]);
      st := PROXYING_NOT_SUPPORTED_5_05;
    } else if number == OBSERVE {
      var i := ParseInt(buffer, option, length);
      r := r.(observe := i % 0x1_0000);
    } else if number == BLOCK2 {
      var i := ParseInt(buffer, option, length);
      r := r.(block2 := ParseBlock(i));
    } else if number == BLOCK1 {
      var i := ParseInt(buffer, option, length);
      r := r.(block1 := ParseBlock(i));
    } else if number == SIZE {
      var i := ParseInt(buffer, option, length);
      r := r.(size := i);
    } else if number % 2 == 1 {
      st := BAD_OPTION_4_02;
    }
  }

  lemma CutOf(d: seq<byte>, at: nat, length: nat, n: nat)
    requires at + length <= |d|
    ensures Cut(d[at..at + length], n) == d[at..at + Least(n, length)]
  {
  }

  /** A value option does not concern the texts. */
  lemma ReceiveValue(h: Held, d: seq<byte>, n: nat, v: seq<byte>)
    requires !InBuffer(n)
    ensures Receive(View(h, d), n, v) == (View(h.(m := Receive(h.m, n, v).0), d), Receive(h.m, n, v).1)
  {
    hide IntValue, ParseBlock, Slice;
  }

  /** A text option: the span of its number changes, those of the others keep their bytes. */
  lemma ReceiveSpan(h: Held, n: nat, v: seq<byte>, s: Span, d: seq<byte>, d': seq<byte>)
    requires InBuffer(n)
    requires h.payload == NOWHERE
    requires forall k: nat {:trigger SpanOf(h, k)} :: InBuffer(k) && k != n ==>
      Slice(d', SpanOf(h, k)) == Slice(d, SpanOf(h, k))
    requires Slice(d', s) == if n == URI_HOST then v else Merge(Slice(d, SpanOf(h, n)), v, Separator(n))
    ensures Receive(View(h, d), n, v) ==
      (View(WithSpan(h, n, s).(m := h.m.(options := h.m.options + {n})), d'), NO_ERROR)
  {
    hide IntValue, ParseBlock, Slice, Merge;
    assert Slice(d', NOWHERE) == Slice(d, NOWHERE) by { SliceNowhere(d); SliceNowhere(d'); }
    assert forall k :: InBuffer(k) <==>
      k == URI_HOST || k == LOCATION_PATH || k == URI_PATH || k == URI_QUERY || k == LOCATION_QUERY;
    var a, b, c := SpanOf(h, URI_HOST), SpanOf(h, LOCATION_PATH), SpanOf(h, URI_PATH);
    var e, f := SpanOf(h, URI_QUERY), SpanOf(h, LOCATION_QUERY);
  }

  lemma SliceNowhere(d: seq<byte>)
    ensures Slice(d, NOWHERE) == []
  {
  }

  /** The new span is the last one. */
  lemma TidyWith(h: Held, number: nat, hdr: nat, n: nat, s: Span, at: nat)
    requires InBuffer(n) && Tidy(h, number, hdr) && number <= n && hdr <= at && EndsBy(s, at)
    requires if SpanOf(h, n).len > 0 && n != URI_HOST then s.pos == SpanOf(h, n).pos else s.pos >= hdr
    ensures Tidy(WithSpan(h, n, s), n, at)
  {
    var h' := WithSpan(h, n, s);
    forall k: nat | InBuffer(k) ensures SpanOf(h', k) == if k == n then s else SpanOf(h, k) {
    }
  }

  /** Writing behind a text does not change it. */
  lemma SliceKept(d: seq<byte>, d': seq<byte>, s: Span, at: nat)
    requires SameUpTo(d', d, at) && (EndsBy(s, at) || s.len == 0)
    ensures Slice(d', s) == Slice(d, s)
  {
  }

  /** The options whose value stays in the buffer. */
  method HandleText(h: Held, buffer: array<byte>, ghost before: nat, ghost hdr: nat, number: nat, option: nat,
    length: nat)
    returns (r: Held)
    requires InBuffer(number) && before <= number && hdr < option && option + length <= buffer.Length
    requires Tidy(h, before, hdr)
    modifies buffer
    ensures Tidy(r, number, option + length)
    ensures (View(r, buffer[..]), NO_ERROR) ==
      Receive(View(h, old(buffer[..])), number, old(buffer[option..option + length]))
    ensures SameFrom(buffer[..], old(buffer[..]), option + length)
  {
    hide View, Receive, Merge, Slice, Tidy;
    ghost var d, v := buffer[..], buffer[option..option + length];
    var s: Span;
    if number == URI_HOST {
      s := Span(option, length);
      SliceIs(d, option, length);
    } else {
      TextEnds(h, before, hdr, number);
      s := Merged(buffer, SpanOf(h, number), option, length, Separator(number));
    }
    OthersKept(h, before, hdr, number, d, buffer[..]);
    ReceiveSpan(h, number, v, s, d, buffer[..]);
    TidyWith(h, before, hdr, number, s, option + length);
    r := WithSpan(h, number, s).(m := h.m.(options := h.m.options + {number}));
    TidyHeader(WithSpan(h, number, s), r, number, option + length);
  }

  lemma SliceIs(d: seq<byte>, at: nat, length: nat)
    requires at + length <= |d|
    ensures Slice(d, Span(at, length)) == d[at..at + length]
  {
  }

  lemma TextEnds(h: Held, number: nat, at: nat, n: nat)
    requires Tidy(h, number, at) && InBuffer(n)
    ensures EndsBy(SpanOf(h, n), at) && h.payload == NOWHERE
  {
  }

  /** Merging into the text of the largest number so far leaves the other texts alone. */
  lemma OthersKept(h: Held, number: nat, at: nat, n: nat, d: seq<byte>, d': seq<byte>)
    requires Tidy(h, number, at) && InBuffer(n) && number <= n
    requires d' == d || (SameUpTo(d', d, SpanOf(h, n).pos + SpanOf(h, n).len) && SpanOf(h, n).len > 0)
    ensures h.payload == NOWHERE
    ensures forall k: nat {:trigger SpanOf(h, k)} :: InBuffer(k) && k != n ==>
      Slice(d', SpanOf(h, k)) == Slice(d, SpanOf(h, k))
  {
    hide Slice;
    if d' != d {
      forall k: nat | InBuffer(k) && k != n ensures Slice(d', SpanOf(h, k)) == Slice(d, SpanOf(h, k)) {
        assert n < k ==> SpanOf(h, k).len == 0;
        assert k < n ==> Before(SpanOf(h, k), SpanOf(h, n));
        SliceKept(d, d', SpanOf(h, k), SpanOf(h, n).pos + SpanOf(h, n).len);
      }
    }
  }

  lemma TidyHeader(h: Held, r: Held, number: nat, at: nat)
    requires Tidy(h, number, at) && r == h.(m := r.m)
    ensures Tidy(r, number, at)
  {
    forall n: nat ensures SpanOf(r, n) == SpanOf(h, n) {
    }
  }

  /** From position at on, the buffer still begins with what was received. */
  ghost predicate Ahead(now: seq<byte>, d: seq<byte>, at: nat) {
    |d| <= |now| && forall i :: at <= i < |d| ==> now[i] == d[i]
  }

  lemma StillAhead(now: seq<byte>, was: seq<byte>, d: seq<byte>, at: nat, next: nat)
    requires Ahead(was, d, at) && at <= next && SameFrom(now, was, next)
    ensures Ahead(now, d, next)
  {
  }

  lemma AheadSlice(now: seq<byte>, d: seq<byte>, at: nat, from: nat, to: nat)
    requires Ahead(now, d, at) && at <= from <= to <= |d|
    ensures now[from..to] == d[from..to]
  {
  }

  /** A nibble and the bytes that extend it. */
  method ParseExtended(data: array<byte>, ghost d: seq<byte>, at: nat, nibble: nat) returns (x: nat, next: nat)
    requires Ahead(data[..], d, at) && at + ExtraSize(nibble) <= |d|
    ensures x == Extended(d, at, nibble) && next == at + ExtraSize(nibble)
  {
    x, next := nibble, at;
    if x == 13 {
      x := x + data[next];
      next := next + 1;
    } else if x == 14 {
      x := x + 255;
      x := x + 256 * (data[next] as int);
      next := next + 1;
      x := x + data[next];
      next := next + 1;
    }
  }

  /** Delta and length of the option at position at, and where its value begins. */
  method ParseHeader(data: array<byte>, ghost d: seq<byte>, at: nat) returns (delta: nat, length: nat, option: nat)
    requires Ahead(data[..], d, at) && HasHeader(d, at)
    ensures delta == Delta(d, at) && length == Length(d, at) && option == at + HeaderSize(d, at)
  {
    hide Extended;
    delta, length := data[at] / 16, data[at] % 16;
    option := at + 1;
    delta, option := ParseExtended(data, d, option, delta);
    length, option := ParseExtended(data, d, option, length);
  }

  /** One pass of the loop over the options. */
  method ParseOption(h: Held, data: array<byte>, ghost d: seq<byte>, before: nat, at: nat)
    returns (r: Held, number: nat, next: nat, st: Status)
    requires Tidy(h, before, at) && Ahead(data[..], d, at) && HasHeader(d, at) && Skip(d, at) <= |d|
    modifies data
    ensures number == before + Delta(d, at) && next == Skip(d, at)
    ensures Tidy(r, number, next) && Ahead(data[..], d, next)
    ensures (View(r, data[..]), st) == Receive(View(h, old(data[..])), number, d[at + HeaderSize(d, at)..next])
  {
    hide Tidy, Ahead, HasHeader, HeaderSize, Delta, Length, View, Receive, SameFrom;
    ghost var was := data[..];
    HeaderThere(d, at, was);
    var delta, length, option := ParseHeader(data, d, at);
    number := before + delta;
    next := option + length;
    AheadSlice(was, d, at, option, next);
    if number == URI_HOST || IsText(number) {
      r := HandleText(h, data, before, at, number, option, length);
      st := NO_ERROR;
      StillAhead(data[..], was, d, at, next);
    } else {
      var m;
      m, st := HandleValue(h.m, data, number, option, length);
      r := h.(m := m);
      ReceiveValue(h, was, number, d[option..next]);
      TidyLater(h, before, at, number, next);
      TidyHeader(h, r, number, next);
      SameFromItself(was, next);
      StillAhead(was, was, d, at, next);
    }
  }

  lemma SameFromItself(d: seq<byte>, at: nat)
    ensures SameFrom(d, d, at)
  {
  }

  lemma HeaderThere(d: seq<byte>, at: nat, now: seq<byte>)
    requires HasHeader(d, at) && Ahead(now, d, at)
    ensures HeaderSize(d, at) >= 1 && |d| <= |now|
  {
  }

  /** The payload, null-terminated where it ends. */
  method ParsePayload(h: Held, data: array<byte>, length: nat, ghost before: nat, at: nat) returns (r: Held)
    requires at < length < data.Length && Tidy(h, before, at)
    modifies data
    ensures View(r, data[..]) == View(h, old(data[..])).(payload := Cut(old(data[at + 1..length]), MAX_CHUNK_SIZE))
  {
    hide View, Tidy;
    var size := length - (at + 1);
    if size > MAX_CHUNK_SIZE {
      size := MAX_CHUNK_SIZE;
    }
    ghost var d := data[..];
    assert data[at + 1..length] == d[at + 1..length];
    data[at + 1 + size] := 0;
    r := h.(payload := Span(at + 1, size));
    PayloadView(h, before, at, d, data[..], size, length);
  }

  lemma PayloadView(h: Held, number: nat, at: nat, d: seq<byte>, d': seq<byte>, size: nat, length: nat)
    requires Tidy(h, number, at) && at < length < |d| && size == Least(MAX_CHUNK_SIZE, length - (at + 1))
    requires d' == d[at + 1 + size := 0]
    ensures View(h.(payload := Span(at + 1, size)), d') ==
      View(h, d).(payload := Cut(d[at + 1..length], MAX_CHUNK_SIZE))
  {
    hide Slice;
    var s := Span(at + 1, size);
    SliceIs(d', at + 1, size);
    CutOf(d, at + 1, length - (at + 1), MAX_CHUNK_SIZE);
    assert d'[at + 1..at + 1 + size] == d[at + 1..at + 1 + size];
    forall n: nat | InBuffer(n) ensures Slice(d', SpanOf(h, n)) == Slice(d, SpanOf(h, n)) {
      SliceKept(d, d', SpanOf(h, n), at);
    }
    assert Slice(d', SpanOf(h, URI_HOST)) == Slice(d, h.host);
    assert Slice(d', SpanOf(h, LOCATION_PATH)) == Slice(d, h.locationPath);
    assert Slice(d', SpanOf(h, URI_PATH)) == Slice(d, h.uriPath);
    assert Slice(d', SpanOf(h, URI_QUERY)) == Slice(d, h.uriQuery);
    assert Slice(d', SpanOf(h, LOCATION_QUERY)) == Slice(d, h.locationQuery);
  }

  /** The bitmap of options ends with number 39. */
  predicate InBitmap(opts: seq<Opt>) {
    forall i :: 0 <= i < |opts| ==> opts[i].number < 40
  }

  function Start(m: Msg): Held {
    Held(m, NOWHERE, NOWHERE, NOWHERE, NOWHERE, NOWHERE, NOWHERE)
  }

  lemma Starts(kind: nat, code: byte, mid: nat, token: seq<byte>, d: seq<byte>, at: nat)
    ensures var m := Empty(kind, code, mid, token); Tidy(Start(m), 0, at) && View(Start(m), d) == m
  {
  }

  lemma ReceiveNext(m: Msg, d: seq<byte>, at: nat, number: nat)
    requires WellFormed(d, at) && at < |d| && d[at] < 0xF0
    ensures HasHeader(d, at) && at + HeaderSize(d, at) <= Skip(d, at) <= |d|
    ensures var next, n := Skip(d, at), number + Delta(d, at);
      var (r, st) := Receive(m, n, d[at + HeaderSize(d, at)..next]);
      && WellFormed(d, next) && PayloadOf(d, next) == PayloadOf(d, at)
      && ReceiveAll(m, DecodeAll(d, at, number)) ==
        if st != NO_ERROR then (r, st) else ReceiveAll(r, DecodeAll(d, next, n))
  {
    hide Receive, HeaderSize, Delta, HasHeader, Length;
    var next, n := Skip(d, at), number + Delta(d, at);
    var o := Opt(n, d[at + HeaderSize(d, at)..next]);
    assert ([o] + DecodeAll(d, next, n))[1..] == DecodeAll(d, next, n);
  }

  /** Options from position at on: what is left to receive, and what follows them. */
  method ParseOptions(h0: Held, data: array<byte>, length: nat, ghost d: seq<byte>, start: nat)
    returns (h: Held, st: Status)
    requires length == |d| < data.Length && Ahead(data[..], d, start) && WellFormed(d, start) && Tidy(h0, 0, start)
    requires start <= |d|
    modifies data
    ensures var (m, st') := ReceiveAll(View(h0, old(data[..])), DecodeAll(d, start, 0));
      && st == st'
      && View(h, data[..]) == if st != NO_ERROR then m else m.(payload := Cut(PayloadOf(d, start), MAX_CHUNK_SIZE))
  {
    hide View, Tidy, Receive, HeaderSize, Delta, Skip, Cut, Ahead;
    var at: nat, number: nat := start, 0;
    h, st := h0, NO_ERROR;
    ghost var all := ReceiveAll(View(h0, data[..]), DecodeAll(d, start, 0));
    while at < length
      invariant at <= |d| && WellFormed(d, at) && Tidy(h, number, at) && Ahead(data[..], d, at)
      invariant all == ReceiveAll(View(h, data[..]), DecodeAll(d, at, number))
      invariant PayloadOf(d, at) == PayloadOf(d, start) && st == NO_ERROR
      decreases |d| - at
    {
      AheadAt(data[..], d, at);
      if data[at] / 16 == 15 {
        ghost var was := data[..];
        AheadSlice(was, d, at, at + 1, length);
        assert data[at + 1..length] == was[at + 1..length] == d[at + 1..];
        h := ParsePayload(h, data, length, number, at);
        return;
      }
      ghost var m, from, n := View(h, data[..]), at, number;
      h, number, at, st := ParseOption(h, data, d, number, at);
      ReceiveNext(m, d, from, n);
      if st != NO_ERROR {
        return;
      }
    }
    NoPayload(h, number, at, data[..]);
  }

  lemma NoPayload(h: Held, number: nat, at: nat, d: seq<byte>)
    requires Tidy(h, number, at)
    ensures View(h, d) == View(h, d).(payload := Cut([], MAX_CHUNK_SIZE))
  {
  }

  /**
   * coap_parse_message, given a complete packet whose option numbers fit the bitmap, in a buffer with room for the
   * payload's terminator: the buffer changes as the texts are merged in it, and the structure then says what the
   * packet said.
   */
  method ParseMessage(data: array<byte>, length: nat) returns (h: Held, st: Status)
    requires length < data.Length && Complete(data[..length])
    requires data[0] / 64 == 1 ==> InBitmap(DecodeAll(data[..length], HEADER_LEN + TokenLength(data[..length]), 0))
    modifies data
    ensures (View(h, data[..]), st) == Parsed(old(data[..length]))
  {
    hide View, Tidy, Empty, ReceiveAll, WellFormed, DecodeAll, PayloadOf, Cut, InBitmap;
    ghost var d := data[..length];
    var version, kind, tokenLength := data[0] / 64, data[0] / 16 % 4, Least(TOKEN_LEN, data[0] % 16);
    var code, mid := data[1], (data[2] as int) * 256 + data[3];
    if version != 1 {
      h := Start(Empty(kind, code, mid, seq(tokenLength, _ => 0)));
      Starts(kind, code, mid, seq(tokenLength, _ => 0), data[..], 0);
      return h, BAD_REQUEST_4_00;
    }
    var option := HEADER_LEN + tokenLength;
    var token := data[HEADER_LEN..option];
    AheadAll(data[..], length, HEADER_LEN, option);
    h := Start(Empty(kind, code, mid, token));
    Starts(kind, code, mid, token, data[..], option);
    h, st := ParseOptions(h, data, length, d, option);
  }

  lemma AheadAll(now: seq<byte>, length: nat, from: nat, to: nat)
    requires from <= to <= length <= |now|
    ensures Ahead(now, now[..length], to) && now[from..to] == now[..length][from..to]
  {
  }

  lemma AheadAt(now: seq<byte>, d: seq<byte>, at: nat)
    requires Ahead(now, d, at) && at < |d|
    ensures |d| <= |now| && now[at] == d[at]
  {
  }
}
