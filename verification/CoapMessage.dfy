/** CoAP messages: the options a packet is sent with, and what receiving options makes of a packet. */
module CoapMessage {
  import opened Octets
  import opened Arith
  import opened CoapOption
  import opened CoapText
  import opened CoapInt

  const AMPERSAND: byte := 0x26

  const IF_MATCH := 1
  const URI_HOST := 3
  const ETAG := 4
  const IF_NONE_MATCH := 5
  const OBSERVE := 6
  const URI_PORT := 7
  const LOCATION_PATH := 8
  const URI_PATH := 11
  const CONTENT_TYPE := 12
  const MAX_AGE := 14
  const URI_QUERY := 15
  const ACCEPT := 16
  const LOCATION_QUERY := 20
  const BLOCK2 := 23
  const BLOCK1 := 27
  const SIZE := 28
  const PROXY_URI := 35

  const ETAG_LEN := 8
  const TOKEN_LEN := 8
  const MAX_ACCEPT_NUM := 2

  datatype Status = NO_ERROR | BAD_REQUEST_4_00 | BAD_OPTION_4_02 | PROXYING_NOT_SUPPORTED_5_05

  /** A packet. */
  datatype Msg = Msg(
    kind: nat, code: byte, mid: nat, token: seq<byte>, options: set<nat>,
    ifMatch: seq<byte>, uriHost: seq<byte>, etag: seq<byte>, ifNoneMatch: bool, observe: nat, uriPort: nat,
    locationPath: seq<byte>, uriPath: seq<byte>, contentType: nat, maxAge: nat, uriQuery: seq<byte>,
    accept: seq<nat>, locationQuery: seq<byte>, block2: Block, block1: Block, size: nat, proxyUri: seq<byte>,
    payload: seq<byte>)

  const NO_BLOCK := Block(0, false, 0, 0)

  /** A packet with only its header set. */
  function Empty(kind: nat, code: byte, mid: nat, token: seq<byte>): Msg {
    Msg(kind, code, mid, token, {}, [], [], [], false, 0, 0, [], [], 0, 0, [], [], [], NO_BLOCK, NO_BLOCK, 0, [],
      [])
  }

  function Ints(vs: seq<nat>): (r: seq<seq<byte>>)
    ensures |r| == |vs|
  {
    seq(|vs|, i requires 0 <= i < |vs| => IntBytes(vs[i]))
  }

  predicate BlockSized(b: Block) {
    b.size < 0x1_0000
  }

  /** Sizes of block descriptors are 16-bit fields. */
  predicate Typed(m: Msg) {
    BlockSized(m.block2) && BlockSized(m.block1)
  }

  /** The option values a set option of number n is sent as. */
  function Values(m: Msg, n: nat): seq<seq<byte>>
    requires Typed(m)
  {
    if n == IF_MATCH then [m.ifMatch]
    else if n == URI_HOST then [m.uriHost]
    else if n == ETAG then [m.etag]
    else if n == IF_NONE_MATCH then [IntBytes(0)]
    else if n == OBSERVE then [IntBytes(m.observe)]
    else if n == URI_PORT then [IntBytes(m.uriPort)]
    else if n == LOCATION_PATH then Parts(m.locationPath, SLASH)
    else if n == URI_PATH then Parts(m.uriPath, SLASH)
    else if n == CONTENT_TYPE then [IntBytes(m.contentType)]
    else if n == MAX_AGE then [IntBytes(m.maxAge)]
    else if n == URI_QUERY then Parts(m.uriQuery, AMPERSAND)
    else if n == ACCEPT then Ints(m.accept)
    else if n == LOCATION_QUERY then Parts(m.locationQuery, AMPERSAND)
    else if n == BLOCK2 then [IntBytes(BlockValue(m.block2))]
    else if n == BLOCK1 then [IntBytes(BlockValue(m.block1))]
    else if n == SIZE then [IntBytes(m.size)]
    else if n == PROXY_URI then [m.proxyUri]
    else []
  }

  /** The numbers of the options that are sent, in the order in which they are. */
  const ORDER: seq<nat> :=
    [IF_MATCH, URI_HOST, ETAG, IF_NONE_MATCH, OBSERVE, URI_PORT, LOCATION_PATH, URI_PATH,
     CONTENT_TYPE, MAX_AGE, URI_QUERY, ACCEPT, LOCATION_QUERY, BLOCK2, BLOCK1, SIZE, PROXY_URI]

  function Numbered(n: nat, vs: seq<seq<byte>>): (r: seq<Opt>)
    ensures |r| == |vs|
  {
    seq(|vs|, i requires 0 <= i < |vs| => Opt(n, vs[i]))
  }

  /** The options sent for number n. */
  function Sent(m: Msg, n: nat): seq<Opt>
    requires Typed(m)
  {
    if n in m.options then Numbered(n, Values(m, n)) else []
  }

  /** The options sent from position k of the order on. */
  function SentFrom(m: Msg, k: nat): seq<Opt>
    requires Typed(m) && k <= |ORDER|
    decreases |ORDER| - k
  {
    if k == |ORDER| then [] else Sent(m, ORDER[k]) + SentFrom(m, k + 1)
  }

  /** All options of a packet, in the order in which they are sent. */
  function Options(m: Msg): seq<Opt>
    requires Typed(m)
  {
    SentFrom(m, 0)
  }

  function Cut(v: seq<byte>, n: nat): seq<byte> {
    if |v| > n then v[..n] else v
  }

  /** What a received option makes of the packet. */
  function Receive(m: Msg, n: nat, v: seq<byte>): (Msg, Status) {
    var m := m.(options := m.options + {n});
    if n == CONTENT_TYPE then (m.(contentType := IntValue(v)), NO_ERROR)
    else if n == MAX_AGE then (m.(maxAge := IntValue(v)), NO_ERROR)
    else if n == ETAG then (m.(etag := Cut(v, ETAG_LEN)), NO_ERROR)
    else if n == ACCEPT then
      (if |m.accept| < MAX_ACCEPT_NUM then m.(accept := m.accept + [IntValue(v) % 0x1_0000]) else m, NO_ERROR)
    else if n == IF_MATCH then (m.(ifMatch := Cut(v, ETAG_LEN)), NO_ERROR)
    else if n == IF_NONE_MATCH then (m.(ifNoneMatch := true), NO_ERROR)
    else if n == URI_HOST then (m.(uriHost := v), NO_ERROR)
    else if n == URI_PORT then (m.(uriPort := IntValue(v) % 0x1_0000), NO_ERROR)
    else if n == URI_PATH then (m.(uriPath := Merge(m.uriPath, v, SLASH)), NO_ERROR)
    else if n == URI_QUERY then (m.(uriQuery := Merge(m.uriQuery, v, AMPERSAND)), NO_ERROR)
    else if n == LOCATION_PATH then (m.(locationPath := Merge(m.locationPath, v, SLASH)), NO_ERROR)
    else if n == LOCATION_QUERY then (m.(locationQuery := Merge(m.locationQuery, v, AMPERSAND)), NO_ERROR)
    else if n == PROXY_URI then (m.(proxyUri := v), PROXYING_NOT_SUPPORTED_5_05)
    else if n == OBSERVE then (m.(observe := IntValue(v) % 0x1_0000), NO_ERROR)
    else if n == BLOCK2 then (m.(block2 := ParseBlock(IntValue(v))), NO_ERROR)
    else if n == BLOCK1 then (m.(block1 := ParseBlock(IntValue(v))), NO_ERROR)
    else if n == SIZE then (m.(size := IntValue(v)), NO_ERROR)
    else if n % 2 == 1 then (m, BAD_OPTION_4_02)
    else (m, NO_ERROR)
  }

  /** Receiving options one after the other, up to the first that is refused. */
  function ReceiveAll(m: Msg, opts: seq<Opt>): (Msg, Status)
    decreases |opts|
  {
    if opts == [] then (m, NO_ERROR)
    else
      var (m', st) := Receive(m, opts[0].number, opts[0].value);
      if st != NO_ERROR then (m', st) else ReceiveAll(m', opts[1..])
  }

  lemma {:induction false} ReceiveSplit(m: Msg, a: seq<Opt>, b: seq<Opt>)
    requires ReceiveAll(m, a).1 == NO_ERROR
    ensures ReceiveAll(m, a + b) == ReceiveAll(ReceiveAll(m, a).0, b)
    decreases |a|
  {
    hide Receive;
    if a == [] {
      assert a + b == b;
    } else {
      Uncons(a, b);
      ReceiveSplit(Receive(m, a[0].number, a[0].value).0, a[1..], b);
    }
  }

  /** The text an option of number n adds to. */
  function TextOf(m: Msg, n: nat): seq<byte> {
    if n == LOCATION_PATH then m.locationPath else if n == URI_PATH then m.uriPath
    else if n == URI_QUERY then m.uriQuery else m.locationQuery
  }

  function WithText(m: Msg, n: nat, s: seq<byte>): Msg {
    if n == LOCATION_PATH then m.(locationPath := s) else if n == URI_PATH then m.(uriPath := s)
    else if n == URI_QUERY then m.(uriQuery := s) else m.(locationQuery := s)
  }

  predicate IsText(n: nat) {
    n == LOCATION_PATH || n == URI_PATH || n == URI_QUERY || n == LOCATION_QUERY
  }

  function Separator(n: nat): byte {
    if n == LOCATION_PATH || n == URI_PATH then SLASH else AMPERSAND
  }

  /** Repeated text options are merged. */
  lemma {:induction false} ReceiveTexts(m: Msg, n: nat, vs: seq<seq<byte>>)
    requires IsText(n) && vs != []
    ensures ReceiveAll(m, Numbered(n, vs)) ==
      (WithText(m.(options := m.options + {n}), n, MergeAll(TextOf(m, n), vs, Separator(n))), NO_ERROR)
    decreases |vs|
  {
    var opts := Numbered(n, vs);
    var m' := WithText(m.(options := m.options + {n}), n, Merge(TextOf(m, n), vs[0], Separator(n)));
    assert Receive(m, n, vs[0]) == (m', NO_ERROR);
    assert opts[1..] == Numbered(n, vs[1..]);
    if |vs| > 1 {
      ReceiveTexts(m', n, vs[1..]);
      assert m'.options + {n} == m.options + {n};
    }
  }

  /** What the options sent for p's field n leave in q. */
  function WithField(q: Msg, p: Msg, n: nat): Msg
    requires Typed(p)
  {
    if n == ACCEPT && p.accept == [] then q
    else
      var q := q.(options := q.options + {n});
      if IsText(n) then WithText(q, n, MergeAll([], Values(p, n), Separator(n)))
      else if n == IF_MATCH then q.(ifMatch := Cut(p.ifMatch, ETAG_LEN))
      else if n == URI_HOST then q.(uriHost := p.uriHost)
      else if n == ETAG then q.(etag := Cut(p.etag, ETAG_LEN))
      else if n == IF_NONE_MATCH then q.(ifNoneMatch := true)
      else if n == OBSERVE then q.(observe := p.observe)
      else if n == URI_PORT then q.(uriPort := p.uriPort)
      else if n == CONTENT_TYPE then q.(contentType := p.contentType)
      else if n == MAX_AGE then q.(maxAge := p.maxAge)
      else if n == ACCEPT then q.(accept := p.accept)
      else if n == BLOCK2 then q.(block2 := ParseBlock(BlockValue(p.block2)))
      else if n == BLOCK1 then q.(block1 := ParseBlock(BlockValue(p.block1)))
      else if n == SIZE then q.(size := p.size)
      else if n == PROXY_URI then q.(proxyUri := p.proxyUri)
      else q
  }

  /** The two packets agree on the field of number n. */
  predicate SameField(a: Msg, b: Msg, n: nat) {
    && (n == IF_MATCH ==> a.ifMatch == b.ifMatch)
    && (n == URI_HOST ==> a.uriHost == b.uriHost)
    && (n == ETAG ==> a.etag == b.etag)
    && (n == IF_NONE_MATCH ==> a.ifNoneMatch)
    && (n == OBSERVE ==> a.observe == b.observe)
    && (n == URI_PORT ==> a.uriPort == b.uriPort)
    && (n == LOCATION_PATH ==> a.locationPath == b.locationPath)
    && (n == URI_PATH ==> a.uriPath == b.uriPath)
    && (n == CONTENT_TYPE ==> a.contentType == b.contentType)
    && (n == MAX_AGE ==> a.maxAge == b.maxAge)
    && (n == URI_QUERY ==> a.uriQuery == b.uriQuery)
    && (n == ACCEPT ==> a.accept == b.accept)
    && (n == LOCATION_QUERY ==> a.locationQuery == b.locationQuery)
    && (n == BLOCK2 ==> a.block2 == b.block2)
    && (n == BLOCK1 ==> a.block1 == b.block1)
    && (n == SIZE ==> a.size == b.size)
    && (n == PROXY_URI ==> a.proxyUri == b.proxyUri)
  }

  /** The numbers fit the fields of the packet structure. */
  predicate Ranged(p: Msg) {
    && Typed(p) && p.kind < 4 && p.mid < 0x1_0000 && |p.token| <= TOKEN_LEN
    && |p.ifMatch| <= ETAG_LEN && |p.etag| <= ETAG_LEN && p.observe < 0x1_0000 && p.uriPort < 0x1_0000
    && p.contentType < WIDE && p.maxAge < WIDE && p.size < WIDE
    && |p.accept| <= MAX_ACCEPT_NUM && (forall i :: 0 <= i < |p.accept| ==> p.accept[i] < 0x1_0000)
  }

  /** The fields a set option cannot always carry: texts, block descriptors and the list of accepted types. */
  predicate Carried(p: Msg, n: nat) {
    && (n == LOCATION_PATH ==> Survives(p.locationPath, SLASH))
    && (n == URI_PATH ==> Survives(p.uriPath, SLASH))
    && (n == URI_QUERY ==> Survives(p.uriQuery, AMPERSAND))
    && (n == LOCATION_QUERY ==> Survives(p.locationQuery, AMPERSAND))
    && (n == BLOCK2 ==> GoodBlock(p.block2))
    && (n == BLOCK1 ==> GoodBlock(p.block1))
    && (n == ACCEPT ==> p.accept != [])
  }

  /** A block descriptor that survives its option. */
  predicate GoodBlock(b: Block) {
    b.num < 0x1000_0000 && IsBlockSize(b.size) && b.offset == b.num * b.size % WIDE
  }

  /** The fields that options add to are still empty. */
  predicate Unset(q: Msg, n: nat) {
    (IsText(n) ==> TextOf(q, n) == []) && (n == ACCEPT ==> q.accept == [])
  }

  predicate IsSent(n: nat) {
    n in ORDER
  }

  lemma One(m: Msg, n: nat, v: seq<byte>)
    ensures ReceiveAll(m, Numbered(n, [v])) == Receive(m, n, v)
  {
    hide Receive;
    assert Numbered(n, [v])[1..] == [];
  }

  lemma Two(m: Msg, n: nat, v: seq<byte>, w: seq<byte>)
    requires Receive(m, n, v).1 == NO_ERROR && Receive(Receive(m, n, v).0, n, w).1 == NO_ERROR
    ensures ReceiveAll(m, Numbered(n, [v, w])) == Receive(Receive(m, n, v).0, n, w)
  {
    hide Receive;
    assert Numbered(n, [v, w])[1..] == Numbered(n, [w]);
    One(Receive(m, n, v).0, n, w);
  }

  /** What is said to the options sent for one field: Proxy-Uri is refused. */
  function Reply(n: nat): Status {
    if n == PROXY_URI then PROXYING_NOT_SUPPORTED_5_05 else NO_ERROR
  }

  /** Receiving the options sent for one field. */
  lemma FieldReceived(q: Msg, p: Msg, n: nat)
    requires Ranged(p) && IsSent(n) && Unset(q, n)
    ensures ReceiveAll(q, Numbered(n, Values(p, n))) == (WithField(q, p, n), Reply(n))
  {
    hide IntValue, IntBytes, BlockValue, ParseBlock, PartsFrom, MergeAll, Merge, Receive;
    var vs := Values(p, n);
    if IsText(n) {
      SomePart(TextOf(p, n), Separator(n), 0, 0);
      ReceiveTexts(q, n, vs);
    } else if n == ACCEPT {
      AcceptReceived(q, p);
    } else {
      SingleReceived(q, p, n);
      assert vs == [vs[0]];
      One(q, n, vs[0]);
    }
  }

  lemma SingleReceived(q: Msg, p: Msg, n: nat)
    requires Ranged(p) && IsSent(n) && !IsText(n) && n != ACCEPT
    ensures |Values(p, n)| == 1 && Receive(q, n, Values(p, n)[0]) == (WithField(q, p, n), Reply(n))
  {
    hide IntValue, IntBytes, BlockValue, ParseBlock, PartsFrom, MergeAll, Merge;
    IntBack(p.observe);
    IntBack(p.uriPort);
    IntBack(p.contentType);
    IntBack(p.maxAge);
    IntBack(p.size);
    IntBack(BlockValue(p.block2));
    IntBack(BlockValue(p.block1));
  }

  lemma AcceptReceived(q: Msg, p: Msg)
    requires Ranged(p) && q.accept == []
    ensures ReceiveAll(q, Numbered(ACCEPT, Ints(p.accept))) == (WithField(q, p, ACCEPT), NO_ERROR)
  {
    hide IntValue, IntBytes;
    var a, vs := p.accept, Ints(p.accept);
    if |a| == 1 {
      IntBack(a[0]);
      assert vs == [IntBytes(a[0])] && q.accept + [a[0]] == a;
      One(q, ACCEPT, vs[0]);
    } else if |a| == 2 {
      IntBack(a[0]);
      IntBack(a[1]);
      assert vs == [IntBytes(a[0]), IntBytes(a[1])];
      Two(q, ACCEPT, vs[0], vs[1]);
      assert q.options + {ACCEPT} + {ACCEPT} == q.options + {ACCEPT};
      assert q.accept + [a[0]] + [a[1]] == a;
    }
  }

  /** Which fields come back as they were. */
  lemma FieldBack(q: Msg, p: Msg, n: nat)
    requires Ranged(p) && IsSent(n) && n !in q.options
    ensures n in WithField(q, p, n).options && SameField(WithField(q, p, n), p, n) <==> Carried(p, n)
  {
    hide BlockValue, ParseBlock, Parts, MergeAll, Survives;
    TextBack(p.locationPath, SLASH);
    TextBack(p.uriPath, SLASH);
    TextBack(p.uriQuery, AMPERSAND);
    TextBack(p.locationQuery, AMPERSAND);
    BlockBack(p.block2);
    BlockBack(p.block1);
  }

  /** Receiving one field leaves the others alone. */
  lemma FieldFrame(q: Msg, p: Msg, n: nat, j: nat)
    requires Typed(p) && j != n
    ensures SameField(WithField(q, p, n), p, j) <==> SameField(q, p, j)
  {
    hide WithField, SameField;
    if IsText(n) {
      TextFrame(q, p, n, j);
    } else if n < URI_PORT {
      LowFrame(q, p, n, j);
    } else if n < ACCEPT {
      MiddleFrame(q, p, n, j);
    } else {
      HighFrame(q, p, n, j);
    }
  }

  lemma TextFrame(q: Msg, p: Msg, n: nat, j: nat)
    requires Typed(p) && j != n && IsText(n)
    ensures SameField(WithField(q, p, n), p, j) <==> SameField(q, p, j)
  {
    hide BlockValue, ParseBlock, Parts, MergeAll, Merge, Values;
  }

  lemma LowFrame(q: Msg, p: Msg, n: nat, j: nat)
    requires Typed(p) && j != n && !IsText(n) && n < URI_PORT
    ensures SameField(WithField(q, p, n), p, j) <==> SameField(q, p, j)
  {
    hide BlockValue, ParseBlock, Parts, MergeAll, Merge, Values;
  }

  lemma MiddleFrame(q: Msg, p: Msg, n: nat, j: nat)
    requires Typed(p) && j != n && !IsText(n) && URI_PORT <= n < ACCEPT
    ensures SameField(WithField(q, p, n), p, j) <==> SameField(q, p, j)
  {
    hide BlockValue, ParseBlock, Parts, MergeAll, Merge, Values;
  }

  lemma HighFrame(q: Msg, p: Msg, n: nat, j: nat)
    requires Typed(p) && j != n && !IsText(n) && n >= ACCEPT
    ensures SameField(WithField(q, p, n), p, j) <==> SameField(q, p, j)
  {
    hide BlockValue, ParseBlock, Parts, MergeAll, Merge, Values;
  }

  lemma FieldOthers(q: Msg, p: Msg, n: nat, j: nat)
    requires Typed(p) && j != n
    ensures Unset(q, j) ==> Unset(WithField(q, p, n), j)
    ensures j in WithField(q, p, n).options <==> j in q.options
  {
    hide BlockValue, ParseBlock, Parts, MergeAll, Merge, Values;
  }

  /** What the options sent from position k on leave in q. */
  function Rebuilt(q: Msg, p: Msg, k: nat): Msg
    requires Typed(p) && k <= |ORDER|
    decreases |ORDER| - k
  {
    if k == |ORDER| then q
    else Rebuilt(if ORDER[k] in p.options then WithField(q, p, ORDER[k]) else q, p, k + 1)
  }

  lemma OrderIncreases(i: nat, j: nat)
    requires i < j < |ORDER|
    ensures ORDER[i] < ORDER[j]
  {
  }

  /** Proxy-Uri comes last. */
  lemma OrderEnds(k: nat)
    requires k < |ORDER|
    ensures ORDER[k] == PROXY_URI <==> k == |ORDER| - 1
  {
  }

  /** What is said to a packet. */
  function Answer(p: Msg): Status {
    if PROXY_URI in p.options then PROXYING_NOT_SUPPORTED_5_05 else NO_ERROR
  }

  lemma {:induction false} ReceiveSent(q: Msg, p: Msg, k: nat)
    requires Ranged(p) && k <= |ORDER| && forall j :: k <= j < |ORDER| ==> Unset(q, ORDER[j])
    ensures ReceiveAll(q, SentFrom(p, k)) == (Rebuilt(q, p, k), if k < |ORDER| then Answer(p) else NO_ERROR)
    decreases |ORDER| - k
  {
    hide Values, WithField, Receive, Ranged, Unset, ORDER;
    if k < |ORDER| {
      var n := ORDER[k];
      RangedTyped(p);
      OrderEnds(k);
      if n in p.options {
        FieldReceived(q, p, n);
        var q' := WithField(q, p, n);
        forall j | k + 1 <= j < |ORDER| ensures Unset(q', ORDER[j]) {
          OrderIncreases(k, j);
          FieldOthers(q, p, n, ORDER[j]);
        }
        ReceiveSent(q', p, k + 1);
        if n == PROXY_URI {
          assert Sent(p, n) + SentFrom(p, k + 1) == Sent(p, n);
        } else {
          ReceiveSplit(q, Sent(p, n), SentFrom(p, k + 1));
        }
      } else {
        assert SentFrom(p, k) == SentFrom(p, k + 1);
        ReceiveSent(q, p, k + 1);
      }
    }
  }

  lemma RangedTyped(p: Msg)
    requires Ranged(p)
    ensures Typed(p)
  {
  }

  /** An option of the sender's and what became of it. */
  predicate CameBack(p: Msg, r: Msg, n: nat) {
    (n in p.options <==> n in r.options) && (n in p.options ==> SameField(r, p, n))
  }

  /** Later options do not disturb a field. */
  lemma {:induction false} RebuiltFrame(q: Msg, p: Msg, k: nat, n: nat)
    requires Typed(p) && k <= |ORDER| && forall j :: k <= j < |ORDER| ==> ORDER[j] != n
    ensures CameBack(p, Rebuilt(q, p, k), n) <==> CameBack(p, q, n)
    decreases |ORDER| - k
  {
    hide WithField, SameField, ORDER;
    if k < |ORDER| {
      var m := ORDER[k];
      FieldFrame(q, p, m, n);
      FieldOthers(q, p, m, n);
      RebuiltFrame(if m in p.options then WithField(q, p, m) else q, p, k + 1, n);
    }
  }

  /** A set option comes back exactly if its field can be carried, and an unset one stays unset. */
  lemma {:induction false} RebuiltAt(q: Msg, p: Msg, k: nat, i: nat)
    requires Ranged(p) && k <= i < |ORDER| && ORDER[i] !in q.options
    ensures CameBack(p, Rebuilt(q, p, k), ORDER[i]) <==> (ORDER[i] in p.options ==> Carried(p, ORDER[i]))
    decreases |ORDER| - k
  {
    hide WithField, SameField, Carried, Ranged, ORDER;
    RangedTyped(p);
    var n, m := ORDER[i], ORDER[k];
    var q' := if m in p.options then WithField(q, p, m) else q;
    if k < i {
      OrderIncreases(k, i);
      FieldOthers(q, p, m, n);
      RebuiltAt(q', p, k + 1, i);
    } else {
      if n in p.options {
        FieldBack(q, p, n);
      }
      forall j | k + 1 <= j < |ORDER| ensures ORDER[j] != n {
        OrderIncreases(k, j);
      }
      RebuiltFrame(q', p, k + 1, n);
    }
  }

  /** The two packets agree in everything their options carry. */
  predicate Agrees(p: Msg, r: Msg) {
    forall i {:trigger ORDER[i]} :: 0 <= i < |ORDER| ==> CameBack(p, r, ORDER[i])
  }

  /** Every set option has a field that can be carried. */
  predicate Carriable(p: Msg) {
    forall i {:trigger ORDER[i]} :: 0 <= i < |ORDER| && ORDER[i] in p.options ==> Carried(p, ORDER[i])
  }

  lemma {:induction false} RebuiltHeader(q: Msg, p: Msg, k: nat)
    requires Typed(p) && k <= |ORDER|
    ensures var r := Rebuilt(q, p, k);
      r.kind == q.kind && r.code == q.code && r.mid == q.mid && r.token == q.token && r.payload == q.payload
    decreases |ORDER| - k
  {
    hide Values, MergeAll, BlockValue, ParseBlock, ORDER;
    if k < |ORDER| {
      RebuiltHeader(if ORDER[k] in p.options then WithField(q, p, ORDER[k]) else q, p, k + 1);
    }
  }

  /**
   * Receiving the options a packet is sent with gives the same options and fields exactly when every set field can be
   * carried.
   */
  lemma OptionsRebuild(p: Msg)
    requires Ranged(p)
    ensures ReceiveAll(Empty(p.kind, p.code, p.mid, p.token), Options(p)) ==
      (Rebuilt(Empty(p.kind, p.code, p.mid, p.token), p, 0), Answer(p))
    ensures Agrees(p, Rebuilt(Empty(p.kind, p.code, p.mid, p.token), p, 0)) <==> Carriable(p)
  {
    hide Rebuilt, SentFrom, Ranged, Carried, CameBack, ReceiveAll, ORDER;
    RangedTyped(p);
    OrderTop();
    var q := Empty(p.kind, p.code, p.mid, p.token);
    ReceiveSent(q, p, 0);
    forall i | 0 <= i < |ORDER|
      ensures CameBack(p, Rebuilt(q, p, 0), ORDER[i]) <==> (ORDER[i] in p.options ==> Carried(p, ORDER[i]))
    {
      RebuiltAt(q, p, 0, i);
    }
  }

  lemma {:induction false} SentOrdered(p: Msg, k: nat, prev: nat)
    requires Typed(p) && k <= |ORDER| && (k < |ORDER| ==> prev <= ORDER[k])
    ensures Ordered(prev, SentFrom(p, k))
    ensures forall i :: 0 <= i < |SentFrom(p, k)| ==> SentFrom(p, k)[i].number <= PROXY_URI
    decreases |ORDER| - k
  {
    hide Values, ORDER, Ordered, Numbered;
    OrderTop();
    if k == |ORDER| {
      NothingOrdered(prev);
    } else {
      var n := ORDER[k];
      if k + 1 < |ORDER| {
        OrderIncreases(k, k + 1);
      }
      SentOrdered(p, k + 1, n);
      if n in p.options {
        NumberedOrdered(prev, n, Values(p, n));
        OrderedJoin(prev, Sent(p, n), SentFrom(p, k + 1), n);
        JoinBelow(Sent(p, n), SentFrom(p, k + 1), PROXY_URI);
      } else {
        SentOrdered(p, k + 1, prev);
        assert SentFrom(p, k) == SentFrom(p, k + 1);
      }
    }
  }

  lemma NothingOrdered(prev: nat)
    ensures Ordered(prev, [])
  {
  }

  lemma JoinBelow(a: seq<Opt>, b: seq<Opt>, top: nat)
    requires forall i :: 0 <= i < |a| ==> a[i].number <= top
    requires forall i :: 0 <= i < |b| ==> b[i].number <= top
    ensures forall i :: 0 <= i < |a + b| ==> (a + b)[i].number <= top
  {
  }

  lemma OrderTop()
    ensures |ORDER| == 17 && forall i :: 0 <= i < |ORDER| ==> ORDER[i] <= PROXY_URI
  {
  }

  lemma {:induction false} NumberedOrdered(prev: nat, n: nat, vs: seq<seq<byte>>)
    requires prev <= n
    ensures Ordered(prev, Numbered(n, vs)) && forall i :: 0 <= i < |vs| ==> Numbered(n, vs)[i].number == n
    decreases |vs|
  {
    if vs != [] {
      NumberedOrdered(n, n, vs[1..]);
      assert Numbered(n, vs)[1..] == Numbered(n, vs[1..]);
    }
  }

  lemma {:induction false} OrderedJoin(prev: nat, a: seq<Opt>, b: seq<Opt>, n: nat)
    requires Ordered(prev, a) && Ordered(n, b) && prev <= n && forall i :: 0 <= i < |a| ==> a[i].number <= n
    ensures Ordered(prev, a + b)
    decreases |a|
  {
    if a == [] {
      assert a + b == b;
      if b != [] { }
    } else {
      Uncons(a, b);
      OrderedJoin(a[0].number, a[1..], b, n);
    }
  }
}
