/** Answers cut into blocks (section 2.2 of RFC 7959), and the list of resources fetched block by block. */
module CoapBlocks {
  import opened Octets
  import opened Arith
  import opened CoapInt
  import opened CoapMessage
  import opened CoapPacket
  import opened CoapLinks

  const BAD_REQUEST: byte := 128
  const BAD_OPTION: byte := 130
  const LINK_FORMAT := 40

  /** The text "BlockOutOfScope". */
  const OUT_OF_SCOPE: seq<byte> := [66, 108, 111, 99, 107, 79, 117, 116, 79, 102, 83, 99, 111, 112, 101]

  /** coap_set_payload. */
  function SetPayload(m: Msg, p: seq<byte>): Msg {
    m.(payload := Cut(p, MAX_CHUNK_SIZE))
  }

  /** coap_set_header_block2, which refuses sizes and numbers out of range. */
  function SetBlock2(m: Msg, num: nat, more: bool, size: nat): Msg {
    if size < 16 || size > 2048 || num > 0xF_FFFF then m
    else m.(block2 := Block(num, more, size, m.block2.offset), options := m.options + {BLOCK2})
  }

  /** The block a request asks for. */
  function Wanted(message: Msg): Block {
    if BLOCK2 in message.options then message.block2.(size := Least(message.block2.size, MAX_CHUNK_SIZE))
    else Block(0, false, MAX_CHUNK_SIZE, 0)
  }

  /**
   * The answer, given what the resource's handler made of the response and of the offset; false if blocks are not
   * supported.
   */
  function Applied(message: Msg, response: Msg, newOffset: int): (Msg, bool) {
    var b, p := Wanted(message), response.payload;
    if BLOCK1 in message.options && response.code < BAD_REQUEST && BLOCK1 !in response.options then (response, false)
    else if BLOCK2 !in message.options then
      (if newOffset == 0 then response else SetBlock2(response, 0, newOffset != -1, MAX_CHUNK_SIZE), true)
    else if newOffset != b.offset then
      (SetBlock2(response, b.num, newOffset != -1 || |p| > b.size, b.size).(payload := Window(p, 0, b.size)), true)
    else if b.offset >= |p| then (response.(code := BAD_OPTION, payload := OUT_OF_SCOPE), true)
    else (SetBlock2(response, b.num, |p| > b.offset + b.size, b.size).(payload := Window(p, b.offset, b.size)), true)
  }

  lemma WindowTaken(p: seq<byte>, offset: nat, size: nat)
    requires offset <= |p|
    ensures Window(p, offset, size) == p[offset..][..Least(|p| - offset, size)]
  {
  }

  lemma WindowFirst(p: seq<byte>, size: nat)
    ensures Window(p, 0, size) == p[..Least(|p|, size)] && (|p| <= size ==> p[..Least(|p|, size)] == p)
  {
  }

  /** The part of coap_receive that applies blockwise transfers to a response. */
  method ApplyBlocks(message: Msg, response: Msg, newOffset: int) returns (r: Msg, ok: bool)
    requires |response.payload| <= MAX_CHUNK_SIZE
    ensures (r, ok) == Applied(message, response, newOffset)
  {
    hide Window;
    var blockNum, blockSize, blockOffset := 0, MAX_CHUNK_SIZE, 0;
    if BLOCK2 in message.options {
      blockNum, blockSize, blockOffset := message.block2.num, message.block2.size, message.block2.offset;
      blockSize := Least(blockSize, MAX_CHUNK_SIZE);
    }
    r, ok := response, true;
    var length := |response.payload|;
    if BLOCK1 in message.options && response.code < BAD_REQUEST && BLOCK1 !in response.options {
      ok := false;
    } else if BLOCK2 in message.options {
      if newOffset == blockOffset {
        if blockOffset >= length {
          r := r.(code := BAD_OPTION);
          r := SetPayload(r, OUT_OF_SCOPE);
        } else {
          r := SetBlock2(r, blockNum, length - blockOffset > blockSize, blockSize);
          r := SetPayload(r, response.payload[blockOffset..][..Least(length - blockOffset, blockSize)]);
          WindowTaken(response.payload, blockOffset, blockSize);
        }
      } else {
        r := SetBlock2(r, blockNum, newOffset != -1 || length > blockSize, blockSize);
        WindowFirst(response.payload, blockSize);
        if length > blockSize {
          r := SetPayload(r, response.payload[..blockSize]);
        }
      }
    } else if newOffset != 0 {
      r := SetBlock2(r, 0, newOffset != -1, MAX_CHUNK_SIZE);
      WindowFirst(response.payload, MAX_CHUNK_SIZE);
      r := SetPayload(r, response.payload[..Least(length, MAX_CHUNK_SIZE)]);
    }
  }

  /** A request for one block. */
  function Request(q: Msg, num: nat, size: nat): Msg {
    q.(options := q.options + {BLOCK2}, block2 := Block(num, false, size, num * size))
  }

  /** The size of the blocks the engine gives to a client that asks for this size. */
  function Given(size: nat): nat {
    Least(size, MAX_CHUNK_SIZE)
  }

  lemma GivenRange(size: nat)
    requires IsBlockSize(size)
    ensures 16 <= Given(size) <= size <= 2048 && Given(size) <= MAX_CHUNK_SIZE
    ensures size > MAX_CHUNK_SIZE ==> size == 2048 && Given(size) == MAX_CHUNK_SIZE
    ensures size <= MAX_CHUNK_SIZE ==> Given(size) == size
  {
  }

  lemma NextBlock(num: nat, size: nat)
    ensures (num + 1) * size == num * size + size
  {
  }

  lemma SmallNumber(num: nat, size: nat)
    requires size >= 16 && num * size < 0x100_0000
    ensures num <= 0xF_FFFF
  {
    if num > 0xF_FFFF {
      MulMono(0x10_0000, num, size);
    }
  }

  /**
   * What a client gets that keeps to one block size and asks for block num and the ones after it, until no more are
   * announced, from a resource unaware of blocks.
   */
  function Fetched(q: Msg, response: Msg, size: nat, num: nat): seq<byte>
    requires IsBlockSize(size) && BLOCK1 !in q.options && num * size < |response.payload|
    decreases |response.payload| - num * size
  {
    NextBlock(num, size);
    var a := Applied(Request(q, num, size), response, num * size).0;
    if a.block2.more && (num + 1) * size < |response.payload| then a.payload + Fetched(q, response, size, num + 1)
    else a.payload
  }

  /** One answer: a block of the payload, and whether it is not the last. */
  lemma Answered(q: Msg, response: Msg, size: nat, num: nat)
    requires IsBlockSize(size) && BLOCK1 !in q.options && num * size < |response.payload| <= MAX_CHUNK_SIZE
    ensures var a := Applied(Request(q, num, size), response, num * size);
      && a.1 && a.0.code == response.code && BLOCK2 in a.0.options
      && a.0.block2.num == num && a.0.block2.size == Given(size)
      && a.0.payload == Window(response.payload, num * size, Given(size))
      && (a.0.block2.more <==> num * size + Given(size) < |response.payload|)
  {
    hide Window, IsBlockSize;
    GivenRange(size);
    NextBlock(num, size);
    SmallNumber(num, size);
  }

  /** The blocks of a payload put together are the payload, for every block size. */
  lemma {:induction false} BlocksAssemble(q: Msg, response: Msg, size: nat, num: nat)
    requires IsBlockSize(size) && BLOCK1 !in q.options && num * size < |response.payload| <= MAX_CHUNK_SIZE
    ensures Fetched(q, response, size, num) == response.payload[num * size..]
    decreases |response.payload| - num * size
  {
    hide IsBlockSize, Applied;
    var p := response.payload;
    GivenRange(size);
    NextBlock(num, size);
    Answered(q, response, size, num);
    WindowSteps(p, num * size, Given(size));
    if (num + 1) * size < |p| {
      BlocksAssemble(q, response, size, num + 1);
    }
  }

  lemma WindowSteps(p: seq<byte>, at: nat, size: nat)
    requires at < |p|
    ensures p[at..] == if at + size < |p| then Window(p, at, size) + p[at + size..] else Window(p, at, size)
  {
  }

  /** The printer's response: its window, and when the list goes on, whatever follows it in the buffer. */
  function Listing(response: Msg, rs: seq<Resource>, offset: nat, size: nat, extra: seq<byte>): Msg {
    if offset < |Text(rs, |rs|)| then
      var r := SetPayload(response, Window(Text(rs, |rs|), offset, size) + extra);
      r.(contentType := LINK_FORMAT, options := response.options + {CONTENT_TYPE})
    else if rs == [] then response
    else SetPayload(response.(code := BAD_OPTION), OUT_OF_SCOPE)
  }

  function NextOffset(rs: seq<Resource>, offset: nat, size: nat): int {
    if Done(rs, offset, size) then -1 else offset + size
  }

  /** Bytes follow the window only if it is full and the list goes on. */
  predicate Trails(rs: seq<Resource>, offset: nat, size: nat, extra: seq<byte>) {
    extra == [] || (!Done(rs, offset, size) && |Window(Text(rs, |rs|), offset, size)| == size)
  }

  /** well_known_core_handler with what it does to the response; extra stands for bytes behind the window. */
  method ListResources(rs: seq<Resource>, response: Msg, buffer: array<byte>, preferred: nat, offset: nat)
    returns (r: Msg, next: int, ghost extra: seq<byte>)
    requires 0 < preferred <= MAX_CHUNK_SIZE < buffer.Length
    modifies buffer
    ensures r == Listing(response, rs, offset, preferred, extra) && next == NextOffset(rs, offset, preferred)
    ensures Trails(rs, offset, preferred, extra)
  {
    hide Window, Done, Text;
    var reply;
    reply, next := PrintLinks(rs, buffer, preferred, offset);
    ghost var w := Window(Text(rs, |rs|), offset, preferred);
    r, extra := response, [];
    match reply
    case Links(length) =>
      var n := Least(length, MAX_CHUNK_SIZE);
      r := SetPayload(r, buffer[..n]);
      r := r.(contentType := LINK_FORMAT, options := r.options + {CONTENT_TYPE});
      extra := buffer[|w|..n];
      assert buffer[..n] == buffer[..|w|] + extra;
    case BlockOutOfScope =>
      r := SetPayload(r.(code := BAD_OPTION), OUT_OF_SCOPE);
    case Nothing =>
  }

  /** The answer to a request for a block of the list. */
  function ListAnswer(q: Msg, response: Msg, rs: seq<Resource>, size: nat, num: nat, extra: seq<byte>): Msg {
    var offset, given := num * size, Given(size);
    Applied(Request(q, num, size), Listing(response, rs, offset, given, extra), NextOffset(rs, offset, given)).0
  }

  /** A block of the list, trimmed to its size, and whether another one is announced. */
  lemma ListAnswered(q: Msg, response: Msg, rs: seq<Resource>, size: nat, num: nat, extra: seq<byte>)
    requires IsBlockSize(size) && BLOCK1 !in q.options && num <= 0xF_FFFF && num * size < |Text(rs, |rs|)|
    requires Trails(rs, num * size, Given(size), extra)
    ensures var a := ListAnswer(q, response, rs, size, num, extra);
      && a.payload == Window(Text(rs, |rs|), num * size, Given(size))
      && (a.block2.more <==> !Done(rs, num * size, Given(size)))
      && a.code == response.code && a.contentType == LINK_FORMAT && a.block2.num == num && a.block2.size == Given(size)
  {
    hide Window, Done, Text, IsBlockSize, Applied, Request, Listing, NextOffset, Trails;
    var offset := num * size;
    GivenRange(size);
    ListingIs(response, rs, offset, Given(size), extra);
    AwareAnswer(q, Listing(response, rs, offset, Given(size), extra), size, num, NextOffset(rs, offset, Given(size)));
  }

  /** What the printer made of the response. */
  lemma ListingIs(response: Msg, rs: seq<Resource>, offset: nat, given: nat, extra: seq<byte>)
    requires 0 < given <= MAX_CHUNK_SIZE && offset < |Text(rs, |rs|)| && Trails(rs, offset, given, extra)
    ensures var l, next := Listing(response, rs, offset, given, extra), NextOffset(rs, offset, given);
      && Window(l.payload, 0, given) == Window(Text(rs, |rs|), offset, given)
      && next != offset && (next != -1 || |l.payload| > given <==> !Done(rs, offset, given))
      && l.code == response.code && l.contentType == LINK_FORMAT
  {
    hide Window, Done, Text;
    Trimmed(Window(Text(rs, |rs|), offset, given), extra, given);
  }

  /** The answer of a resource that takes notice of the block asked for. */
  lemma AwareAnswer(q: Msg, l: Msg, size: nat, num: nat, next: int)
    requires IsBlockSize(size) && BLOCK1 !in q.options && num <= 0xF_FFFF && next != num * size
    ensures var a := Applied(Request(q, num, size), l, next).0;
      && a.payload == Window(l.payload, 0, Given(size)) && (a.block2.more <==> next != -1 || |l.payload| > Given(size))
      && a.code == l.code && a.contentType == l.contentType && a.block2.num == num && a.block2.size == Given(size)
  {
    hide Window, IsBlockSize;
    GivenRange(size);
  }

  lemma Trimmed(w: seq<byte>, extra: seq<byte>, size: nat)
    requires size <= MAX_CHUNK_SIZE && |w| <= size && (extra != [] ==> |w| == size)
    ensures Window(Cut(w + extra, MAX_CHUNK_SIZE), 0, size) == w
    ensures (extra == [] ==> |Cut(w + extra, MAX_CHUNK_SIZE)| <= size)
  {
    var p := Cut(w + extra, MAX_CHUNK_SIZE);
    assert p[..|w|] == w;
  }

  /**
   * What a client gets that keeps to one block size and asks for block num of the list and the ones after it, until
   * none is announced or the answer is that there is no such block. Each answer may come with its own bytes behind
   * the window.
   */
  function ListFetched(q: Msg, response: Msg, rs: seq<Resource>, size: nat, num: nat,
    extras: nat -> seq<byte>): seq<byte>
    requires IsBlockSize(size) && BLOCK1 !in q.options
    decreases |Text(rs, |rs|)| - num * size
  {
    if num * size >= |Text(rs, |rs|)| then []
    else
      NextBlock(num, size);
      var a := ListAnswer(q, response, rs, size, num, extras(num));
      if a.block2.more then a.payload + ListFetched(q, response, rs, size, num + 1, extras) else a.payload
  }

  /** One step of the fetch. */
  lemma ListStep(q: Msg, response: Msg, rs: seq<Resource>, size: nat, num: nat, extras: nat -> seq<byte>)
    requires IsBlockSize(size) && BLOCK1 !in q.options && num * size < |Text(rs, |rs|)| < 0x100_0000
    requires Trails(rs, num * size, Given(size), extras(num))
    ensures var w := Window(Text(rs, |rs|), num * size, Given(size));
      ListFetched(q, response, rs, size, num, extras) ==
        if Done(rs, num * size, Given(size)) then w else w + ListFetched(q, response, rs, size, num + 1, extras)
  {
    hide IsBlockSize, Applied, ListAnswer, Text, Trails, Window, Done;
    GivenRange(size);
    SmallNumber(num, size);
    ListAnswered(q, response, rs, size, num, extras(num));
  }

  /** Fetched block by block in a size the engine gives, the list of resources is complete. */
  lemma {:induction false} ListAssembles(
    q: Msg, response: Msg, rs: seq<Resource>, size: nat, num: nat, extras: nat -> seq<byte>)
    requires IsBlockSize(size) && size <= MAX_CHUNK_SIZE && BLOCK1 !in q.options
    requires num * size <= |Text(rs, |rs|)| < 0x100_0000
    requires forall k: nat :: Trails(rs, k * size, Given(size), extras(k))
    ensures ListFetched(q, response, rs, size, num, extras) == Text(rs, |rs|)[num * size..]
    decreases |Text(rs, |rs|)| - num * size
  {
    hide IsBlockSize, Applied, ListAnswer, Text, Trails, Window, Done;
    var t := Text(rs, |rs|);
    GivenRange(size);
    NextBlock(num, size);
    if num * size < |t| {
      ListStep(q, response, rs, size, num, extras);
      WindowSteps(t, num * size, size);
      if Done(rs, num * size, size) {
        DoneIsLast(rs, num * size, size);
      }
      if (num + 1) * size < |t| {
        ListAssembles(q, response, rs, size, num + 1, extras);
      } else {
        NoneLeft(q, response, rs, size, num + 1, extras);
      }
    }
  }

  lemma NoneLeft(q: Msg, response: Msg, rs: seq<Resource>, size: nat, num: nat, extras: nat -> seq<byte>)
    requires IsBlockSize(size) && BLOCK1 !in q.options && num * size >= |Text(rs, |rs|)|
    ensures ListFetched(q, response, rs, size, num, extras) == []
  {
  }

  lemma DoneIsLast(rs: seq<Resource>, offset: nat, size: nat)
    requires Done(rs, offset, size)
    ensures |Text(rs, |rs|)| <= offset + size
  {
  }

  /** No fetch gives more than there is left. */
  lemma {:induction false} ListBound(
    q: Msg, response: Msg, rs: seq<Resource>, size: nat, num: nat, extras: nat -> seq<byte>)
    requires IsBlockSize(size) && BLOCK1 !in q.options && |Text(rs, |rs|)| < 0x100_0000
    requires forall k: nat :: Trails(rs, k * size, Given(size), extras(k))
    ensures |ListFetched(q, response, rs, size, num, extras)| <=
      if num * size < |Text(rs, |rs|)| then |Text(rs, |rs|)| - num * size else 0
    decreases |Text(rs, |rs|)| - num * size
  {
    hide IsBlockSize, Applied, ListAnswer, Text, Trails, Done;
    GivenRange(size);
    NextBlock(num, size);
    if num * size < |Text(rs, |rs|)| {
      ListStep(q, response, rs, size, num, extras);
      ListBound(q, response, rs, size, num + 1, extras);
    } else {
      NoneLeft(q, response, rs, size, num, extras);
    }
  }

  /**
   * The engine gives blocks of at most 1024 bytes, at offsets counted in the size the client asked for. A client that
   * keeps to its size gets the whole list exactly when that size is given, or when the list fits one block.
   */
  lemma ListCompleteExactly(q: Msg, response: Msg, rs: seq<Resource>, size: nat, extras: nat -> seq<byte>)
    requires IsBlockSize(size) && BLOCK1 !in q.options && |Text(rs, |rs|)| < 0x100_0000
    requires forall k: nat :: Trails(rs, k * size, Given(size), extras(k))
    ensures ListFetched(q, response, rs, size, 0, extras) == Text(rs, |rs|) <==>
      size <= MAX_CHUNK_SIZE || |Text(rs, |rs|)| <= MAX_CHUNK_SIZE
  {
    hide IsBlockSize, Applied, ListAnswer, ListFetched, Text, Trails, Done;
    var t := Text(rs, |rs|);
    GivenRange(size);
    NextBlock(0, size);
    if size <= MAX_CHUNK_SIZE {
      ListAssembles(q, response, rs, size, 0, extras);
    } else if 0 < |t| {
      assert Trails(rs, 0 * size, Given(size), extras(0));
      ListStep(q, response, rs, size, 0, extras);
      ListBound(q, response, rs, size, 1, extras);
      WindowFirst(t, Given(size));
    } else {
      NoneLeft(q, response, rs, size, 0, extras);
    }
  }

  /** A resource that takes no notice of blocks answers a request without one as it is. */
  lemma PlainAnswer(q: Msg, response: Msg)
    requires BLOCK1 !in q.options && BLOCK2 !in q.options
    ensures Applied(q, response, 0) == (response, true)
  {
  }

  /** Only a request with Block1 that the resource grants without answering its Block1 is not answered at all. */
  lemma RefusedExactly(q: Msg, response: Msg, newOffset: int)
    ensures !Applied(q, response, newOffset).1 <==>
      BLOCK1 in q.options && BLOCK1 !in response.options && response.code / 32 < 4
  {
  }

  /** A block past the end of the payload of a resource unaware of blocks does not exist. */
  lemma PastTheEnd(q: Msg, response: Msg, size: nat, num: nat)
    requires BLOCK1 !in q.options && num * size >= |response.payload|
    ensures var (a, ok) := Applied(Request(q, num, size), response, num * size);
      ok && a == response.(code := 4 * 32 + 2, payload := OUT_OF_SCOPE)
  {
  }

  /** A block descriptor of a size out of range, or a number of more than 20 bits, is not set. */
  lemma Block2Set(m: Msg, num: nat, more: bool, size: nat)
    ensures var r := SetBlock2(m, num, more, size);
      if 16 <= size <= 2048 && num < 0x10_0000
      then r == m.(options := r.options, block2 := r.block2) && r.options == m.options + {23} &&
        r.block2.num == num && r.block2.more == more && r.block2.size == size
      else r == m
  {
  }

  /** A block past the end of the list does not exist, as long as there is a list. */
  lemma ListPastEnd(q: Msg, response: Msg, rs: seq<Resource>, size: nat, num: nat)
    requires IsBlockSize(size) && BLOCK1 !in q.options && num <= 0xF_FFFF && num * size >= |Text(rs, |rs|)|
    requires NextOffset(rs, num * size, Given(size)) != num * size
    ensures var a := ListAnswer(q, response, rs, size, num, []);
      if rs == [] then a.code == response.code && a.payload == Window(response.payload, 0, Given(size))
      else a.code == 4 * 32 + 2 && a.payload == OUT_OF_SCOPE
  {
    hide IsBlockSize, Text, NextOffset, Applied, Request, Window;
    GivenRange(size);
    var l := Listing(response, rs, num * size, Given(size), []);
    AwareAnswer(q, l, size, num, NextOffset(rs, num * size, Given(size)));
    WindowFirst(l.payload, Given(size));
  }

  /** The list is in link format, which is said. */
  lemma ListFormat(response: Msg, rs: seq<Resource>, offset: nat, given: nat, extra: seq<byte>)
    requires offset < |Text(rs, |rs|)|
    ensures var l := Listing(response, rs, offset, given, extra);
      && 12 in l.options && l.contentType == 40
      && l == response.(payload := l.payload, contentType := 40, options := l.options)
  {
  }

  /** What the list of resources answers to a request without Block2. */
  function FirstAnswer(q: Msg, response: Msg, rs: seq<Resource>, extra: seq<byte>): Msg {
    Applied(q, Listing(response, rs, 0, MAX_CHUNK_SIZE, extra), NextOffset(rs, 0, MAX_CHUNK_SIZE)).0
  }

  /** The first 1024 bytes of the list as block 0, and whether there are more. */
  lemma FirstAnswered(q: Msg, response: Msg, rs: seq<Resource>, extra: seq<byte>)
    requires BLOCK1 !in q.options && BLOCK2 !in q.options && 0 < |Text(rs, |rs|)|
    requires Trails(rs, 0, MAX_CHUNK_SIZE, extra)
    ensures var a := FirstAnswer(q, response, rs, extra);
      && a.payload == Window(Text(rs, |rs|), 0, 1024) && BLOCK2 in a.options
      && a.block2.num == 0 && a.block2.size == 1024 && (a.block2.more <==> !Done(rs, 0, 1024))
      && a.code == response.code && a.contentType == LINK_FORMAT
  {
    hide Window, Done, Text, Listing, NextOffset, Trails;
    ListingIs(response, rs, 0, MAX_CHUNK_SIZE, extra);
    ListingLong(response, rs, 0, MAX_CHUNK_SIZE, extra);
    WindowFirst(Listing(response, rs, 0, MAX_CHUNK_SIZE, extra).payload, MAX_CHUNK_SIZE);
  }

  lemma ListingLong(response: Msg, rs: seq<Resource>, offset: nat, given: nat, extra: seq<byte>)
    requires 0 < given <= MAX_CHUNK_SIZE && offset < |Text(rs, |rs|)|
    ensures |Listing(response, rs, offset, given, extra).payload| <= MAX_CHUNK_SIZE
    ensures NextOffset(rs, offset, given) == -1 <==> Done(rs, offset, given)
  {
  }

  /**
   * A client that asks for the list without Block2 and, as long as more is announced, for the blocks after the first
   * in the size it was given, gets the whole list.
   */
  lemma PlainFetch(q: Msg, response: Msg, rs: seq<Resource>, extras: nat -> seq<byte>)
    requires BLOCK1 !in q.options && BLOCK2 !in q.options && 0 < |Text(rs, |rs|)| < 0x100_0000
    requires forall k: nat :: Trails(rs, k * 1024, 1024, extras(k))
    ensures var a := FirstAnswer(q, response, rs, extras(0));
      a.payload + (if a.block2.more then ListFetched(q, response, rs, a.block2.size, a.block2.num + 1, extras) else [])
        == Text(rs, |rs|)
  {
    hide Applied, ListAnswer, ListFetched, Text, Trails, Window, Done, FirstAnswer;
    var t := Text(rs, |rs|);
    assert Trails(rs, 0 * 1024, 1024, extras(0));
    FirstAnswered(q, response, rs, extras(0));
    WindowSteps(t, 0, 1024);
    if Done(rs, 0, 1024) {
      DoneIsLast(rs, 0, 1024);
    } else if 1024 < |t| {
      ListAssembles(q, response, rs, 1024, 1, extras);
    } else {
      NoneLeft(q, response, rs, 1024, 1, extras);
    }
  }
}
