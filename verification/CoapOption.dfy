/** CoAP options as bytes (sections 3.1 and 3.2 of RFC 7252). */
module CoapOption {
  import opened Octets

  /** An option: its number and its value. */
  datatype Opt = Opt(number: nat, value: seq<byte>)

  /** coap_option_nibble. */
  function Nibble(v: nat): (n: nat)
    ensures n <= 14
  {
    if v < 13 then v else if v <= 0xFF + 13 then 13 else 14
  }

  /** Extra bytes that a delta or a length needs. */
  function Extra(v: nat): seq<byte> {
    if v > 268 then [(v - 269) / 256 % 256, (v - 269) % 256] else if v > 12 then [v - 13] else []
  }

  /** The first bytes of an option. */
  function Header(delta: nat, length: nat): (h: seq<byte>)
    ensures 1 <= |h| <= 5 && h[0] < 0xF0
  {
    [Nibble(delta) * 16 + Nibble(length)] + Extra(delta) + Extra(length)
  }

  /** Number of extra bytes a nibble announces. */
  function ExtraSize(nibble: nat): nat {
    if nibble == 13 then 1 else if nibble == 14 then 2 else 0
  }

  /** A nibble and its extra bytes at position i as a number. */
  function Extended(d: seq<byte>, i: nat, nibble: nat): nat
    requires i + ExtraSize(nibble) <= |d|
  {
    if nibble == 13 then 13 + d[i]
    else if nibble == 14 then 14 + 255 + d[i] * 256 + d[i + 1]
    else nibble
  }

  /** Delta and length fit their two extra bytes. */
  predicate Encodable(v: nat) {
    v < 269 + 0x1_0000
  }

  lemma ExtraBack(v: nat, d: seq<byte>, i: nat)
    requires Encodable(v) && i + |Extra(v)| <= |d| && d[i..i + |Extra(v)|] == Extra(v)
    ensures |Extra(v)| == ExtraSize(Nibble(v)) && Extended(d, i, Nibble(v)) == v
  {
    if v > 268 {
      assert d[i] == Extra(v)[0] && d[i + 1] == Extra(v)[1];
    } else if v > 12 {
      assert d[i] == Extra(v)[0];
    }
  }

  /** One option on the wire, after an option of number prev. */
  function Encode(prev: nat, o: Opt): (e: seq<byte>)
    requires prev <= o.number
    ensures |e| > |o.value|
  {
    Header(o.number - prev, |o.value|) + o.value
  }

  /** Numbers do not decrease. */
  predicate Ordered(prev: nat, opts: seq<Opt>)
    decreases |opts|
  {
    opts == [] || (prev <= opts[0].number && Ordered(opts[0].number, opts[1..]))
  }

  /** Every delta and length fits its field. */
  predicate Writable(prev: nat, opts: seq<Opt>)
    requires Ordered(prev, opts)
    decreases |opts|
  {
    opts == [] ||
    (Encodable(opts[0].number - prev) && Encodable(|opts[0].value|) && Writable(opts[0].number, opts[1..]))
  }

  /** What is short enough is writable. */
  lemma {:induction false} ShortWritable(prev: nat, opts: seq<Opt>, top: nat)
    requires Ordered(prev, opts) && |EncodeAll(prev, opts)| < 0x1_0000 && top < 0x1_0000
    requires forall i :: 0 <= i < |opts| ==> opts[i].number <= top
    ensures Writable(prev, opts)
    decreases |opts|
  {
    if opts != [] {
      ShortWritable(opts[0].number, opts[1..], top);
    }
  }

  function EncodeAll(prev: nat, opts: seq<Opt>): seq<byte>
    requires Ordered(prev, opts)
    decreases |opts|
  {
    if opts == [] then [] else Encode(prev, opts[0]) + EncodeAll(opts[0].number, opts[1..])
  }

  /** Where the value of the option at position i begins, and how long it is. */
  function HeaderSize(d: seq<byte>, i: nat): nat
    requires i < |d|
  {
    1 + ExtraSize(d[i] / 16) + ExtraSize(d[i] % 16)
  }

  predicate HasHeader(d: seq<byte>, i: nat) {
    i < |d| && d[i] < 0xF0 && i + HeaderSize(d, i) <= |d|
  }

  function Delta(d: seq<byte>, i: nat): nat
    requires HasHeader(d, i)
  {
    Extended(d, i + 1, d[i] / 16)
  }

  function Length(d: seq<byte>, i: nat): nat
    requires HasHeader(d, i)
  {
    Extended(d, i + 1 + ExtraSize(d[i] / 16), d[i] % 16)
  }

  /** Position after the option at position i. */
  function Skip(d: seq<byte>, i: nat): (j: nat)
    requires HasHeader(d, i)
    ensures j > i
  {
    i + HeaderSize(d, i) + Length(d, i)
  }

  /** From position i on, complete options up to the end or a payload marker. */
  predicate WellFormed(d: seq<byte>, i: nat)
    decreases |d| - i
  {
    i <= |d| && (i == |d| || d[i] >= 0xF0 || (HasHeader(d, i) && Skip(d, i) <= |d| && WellFormed(d, Skip(d, i))))
  }

  /** The options from position i on, the previous one having number prev. */
  function DecodeAll(d: seq<byte>, i: nat, prev: nat): seq<Opt>
    requires WellFormed(d, i)
    decreases |d| - i
  {
    if i == |d| || d[i] >= 0xF0 then []
    else
      var n := prev + Delta(d, i);
      [Opt(n, d[i + HeaderSize(d, i)..Skip(d, i)])] + DecodeAll(d, Skip(d, i), n)
  }

  /** What follows the payload marker. */
  function PayloadOf(d: seq<byte>, i: nat): seq<byte>
    requires WellFormed(d, i)
    decreases |d| - i
  {
    if i == |d| then [] else if d[i] >= 0xF0 then d[i + 1..] else PayloadOf(d, Skip(d, i))
  }

  /** The bytes of part stand at position i. */
  ghost predicate At(d: seq<byte>, i: nat, part: seq<byte>) {
    i + |part| <= |d| && d[i..i + |part|] == part
  }

  lemma AtSplit(d: seq<byte>, i: nat, a: seq<byte>, b: seq<byte>)
    requires At(d, i, a + b)
    ensures At(d, i, a) && At(d, i + |a|, b)
  {
    var s := d[i..i + |a + b|];
    assert s[..|a|] == a && s[|a|..] == b;
    assert d[i..i + |a|] == s[..|a|] && d[i + |a|..i + |a| + |b|] == s[|a|..];
  }

  lemma AtFirst(d: seq<byte>, i: nat, part: seq<byte>)
    requires At(d, i, part) && part != []
    ensures i < |d| && d[i] == part[0]
  {
    assert d[i..i + |part|][0] == part[0];
  }

  /** The bytes at i are one option's first bytes. */
  lemma HeaderBack(d: seq<byte>, i: nat, delta: nat, length: nat)
    requires Encodable(delta) && Encodable(length) && At(d, i, Header(delta, length))
    ensures HasHeader(d, i) && HeaderSize(d, i) == |Header(delta, length)|
    ensures Delta(d, i) == delta && Length(d, i) == length
  {
    hide At, Extra, Extended;
    var first: seq<byte> := [Nibble(delta) * 16 + Nibble(length)];
    AtSplit(d, i, first + Extra(delta), Extra(length));
    AtSplit(d, i, first, Extra(delta));
    AtFirst(d, i, first);
    ExtraBack(delta, d, i + 1);
    ExtraBack(length, d, i + 1 + |Extra(delta)|);
  }

  /** What ends a run of options: nothing, or the marker and a payload. */
  predicate IsTail(tail: seq<byte>) {
    tail == [] || tail[0] >= 0xF0
  }

  /** Options written one after the other are read back as they were. */
  lemma {:induction false} OptionsBack(d: seq<byte>, i: nat, prev: nat, opts: seq<Opt>, tail: seq<byte>)
    requires Ordered(prev, opts) && Writable(prev, opts) && IsTail(tail)
    requires At(d, i, EncodeAll(prev, opts)) && At(d, i + |EncodeAll(prev, opts)|, tail)
    requires i + |EncodeAll(prev, opts)| + |tail| == |d|
    ensures WellFormed(d, i) && DecodeAll(d, i, prev) == opts
    ensures PayloadOf(d, i) == if tail == [] then [] else tail[1..]
    decreases |opts|
  {
    hide At, Header, Encode, Delta, Length, HeaderSize, Skip, HasHeader, Encodable;
    if opts == [] {
      TailBack(d, i, prev, tail);
    } else {
      var o, rest := opts[0], opts[1..];
      AtSplit(d, i, Encode(prev, o), EncodeAll(o.number, rest));
      OptionBack(d, i, prev, o);
      OptionsBack(d, Skip(d, i), o.number, rest, tail);
      OneMore(d, i, prev, o);
      assert opts == [o] + rest;
    }
  }

  lemma TailBack(d: seq<byte>, i: nat, prev: nat, tail: seq<byte>)
    requires IsTail(tail) && At(d, i, tail) && i + |tail| == |d|
    ensures WellFormed(d, i) && DecodeAll(d, i, prev) == [] && PayloadOf(d, i) == if tail == [] then [] else tail[1..]
  {
    if tail != [] {
      AtFirst(d, i, tail);
      assert d[i..][1..] == d[i + 1..];
    }
  }

  /** One option is read back. */
  lemma OptionBack(d: seq<byte>, i: nat, prev: nat, o: Opt)
    requires prev <= o.number && Encodable(o.number - prev) && Encodable(|o.value|) && At(d, i, Encode(prev, o))
    ensures HasHeader(d, i) && Skip(d, i) == i + |Encode(prev, o)|
    ensures Delta(d, i) == o.number - prev && Length(d, i) == |o.value| && At(d, i + HeaderSize(d, i), o.value)
  {
    hide At, Header, Delta, Length, HeaderSize, HasHeader, Encodable;
    AtSplit(d, i, Header(o.number - prev, |o.value|), o.value);
    HeaderBack(d, i, o.number - prev, |o.value|);
  }

  lemma OneMore(d: seq<byte>, i: nat, prev: nat, o: Opt)
    requires HasHeader(d, i) && prev <= o.number && Delta(d, i) == o.number - prev && Length(d, i) == |o.value|
    requires At(d, i + HeaderSize(d, i), o.value) && WellFormed(d, Skip(d, i))
    ensures WellFormed(d, i) && DecodeAll(d, i, prev) == [o] + DecodeAll(d, Skip(d, i), o.number)
    ensures PayloadOf(d, i) == PayloadOf(d, Skip(d, i))
  {
    hide Extended, HeaderSize, Length;
  }

  /** Encoding in two goes. */
  lemma {:induction false} EncodeSplit(prev: nat, a: seq<Opt>, b: seq<Opt>)
    requires Ordered(prev, a) && Ordered(Last(prev, a), b)
    ensures Ordered(prev, a + b) && EncodeAll(prev, a + b) == EncodeAll(prev, a) + EncodeAll(Last(prev, a), b)
    decreases |a|
  {
    hide Encode, Encodable;
    if a == [] {
      assert a + b == b;
    } else {
      var n := a[0].number;
      LastOf(prev, a);
      EncodeSplit(n, a[1..], b);
      Uncons(a, b);
      Assoc(Encode(prev, a[0]), EncodeAll(n, a[1..]), EncodeAll(Last(prev, a), b));
    }
  }

  lemma Uncons<T>(a: seq<T>, b: seq<T>)
    requires a != []
    ensures (a + b)[0] == a[0] && (a + b)[1..] == a[1..] + b
  {
  }

  lemma Assoc<T>(a: seq<T>, b: seq<T>, c: seq<T>)
    ensures (a + b) + c == a + (b + c)
  {
  }

  lemma LastOf(prev: nat, a: seq<Opt>)
    requires a != []
    ensures Last(a[0].number, a[1..]) == Last(prev, a)
  {
  }

  /** Number of the last option, prev if there is none. */
  function Last(prev: nat, opts: seq<Opt>): nat {
    if opts == [] then prev else opts[|opts| - 1].number
  }
}
