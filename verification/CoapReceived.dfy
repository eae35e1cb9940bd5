/** What a packet from anywhere is taken to say: which options are refused, and what each field ends up as. */
module CoapReceived {
  import opened Octets
  import opened CoapOption
  import opened CoapText
  import opened CoapInt
  import opened CoapMessage
  import opened CoapPacket

  /** The options the parser knows. */
  predicate Known(n: nat) {
    n in [1, 3, 4, 5, 6, 7, 8, 11, 12, 14, 15, 16, 20, 23, 27, 28, 35]
  }

  /** The numbers, as they are in the draft the parser follows. */
  lemma KnownAre(n: nat)
    ensures IsSent(n) <==> Known(n)
    ensures PROXY_URI == 35
  {
  }

  /** An option that can be taken or left: one the parser knows, or an elective one, whose number is even. */
  predicate Understood(o: Opt) {
    o.number != 35 && (Known(o.number) || o.number % 2 == 0)
  }

  /** The place of the first option that is refused. */
  function FirstRefused(opts: seq<Opt>): (k: nat)
    ensures k <= |opts| && (k < |opts| ==> !Understood(opts[k]))
    ensures forall i :: 0 <= i < k ==> Understood(opts[i])
    decreases |opts|
  {
    if opts == [] || !Understood(opts[0]) then 0 else 1 + FirstRefused(opts[1..])
  }

  /** The answer is decided by the first option that is refused. */
  lemma {:induction false} StatusIs(m: Msg, opts: seq<Opt>)
    ensures ReceiveAll(m, opts).1 ==
      var k := FirstRefused(opts);
      if k == |opts| then NO_ERROR
      else if opts[k].number == 35 then PROXYING_NOT_SUPPORTED_5_05 else BAD_OPTION_4_02
    decreases |opts|
  {
    hide Known;
    if opts != [] {
      OneStatus(m, opts[0]);
      StatusIs(Receive(m, opts[0].number, opts[0].value).0, opts[1..]);
    }
  }

  lemma OneStatus(m: Msg, o: Opt)
    ensures Receive(m, o.number, o.value).1 ==
      if Understood(o) then NO_ERROR
      else if o.number == 35 then PROXYING_NOT_SUPPORTED_5_05 else BAD_OPTION_4_02
  {
    hide IntValue, ParseBlock, Merge, Cut;
  }

  /** The values of the options of number n, in their order. */
  function ValuesOf(opts: seq<Opt>, n: nat): seq<seq<byte>>
    decreases |opts|
  {
    if opts == [] then []
    else (if opts[0].number == n then [opts[0].value] else []) + ValuesOf(opts[1..], n)
  }

  /** The field of option n after those values: of single options the last counts, texts are put together. */
  function After(m: Msg, n: nat, vs: seq<seq<byte>>): Msg {
    if vs == [] then m
    else
      var v := vs[|vs| - 1];
      if n == 1 then m.(ifMatch := Cut(v, 8))
      else if n == 3 then m.(uriHost := v)
      else if n == 4 then m.(etag := Cut(v, 8))
      else if n == 6 then m.(observe := IntValue(v) % 0x1_0000)
      else if n == 7 then m.(uriPort := IntValue(v) % 0x1_0000)
      else if n == 8 then m.(locationPath := MergeAll(m.locationPath, vs, '/' as int))
      else if n == 11 then m.(uriPath := MergeAll(m.uriPath, vs, '/' as int))
      else if n == 12 then m.(contentType := IntValue(v))
      else if n == 14 then m.(maxAge := IntValue(v))
      else if n == 15 then m.(uriQuery := MergeAll(m.uriQuery, vs, '&' as int))
      else if n == 16 then m.(accept := FirstTwo(m.accept + Shorts(vs)))
      else if n == 20 then m.(locationQuery := MergeAll(m.locationQuery, vs, '&' as int))
      else if n == 23 then m.(block2 := ParseBlock(IntValue(v)))
      else if n == 27 then m.(block1 := ParseBlock(IntValue(v)))
      else if n == 28 then m.(size := IntValue(v))
      else m
  }

  function Shorts(vs: seq<seq<byte>>): (r: seq<nat>)
    ensures |r| == |vs|
  {
    seq(|vs|, i requires 0 <= i < |vs| => IntValue(vs[i]) % 0x1_0000)
  }

  function FirstTwo(s: seq<nat>): seq<nat> {
    if |s| > 2 then s[..2] else s
  }

  /** Known options but If-None-Match, which carries no value, and Proxy-Uri, which is refused. */
  predicate Carrying(n: nat) {
    Known(n) && n != 5 && n != 35
  }

  /** Every field ends up as the values of its own options make it, whatever else is in the packet. */
  lemma {:induction false} FieldIs(m: Msg, opts: seq<Opt>, n: nat)
    requires Carrying(n) && |m.accept| <= 2 && forall i :: 0 <= i < |opts| ==> Understood(opts[i])
    ensures SameField(ReceiveAll(m, opts).0, After(m, n, ValuesOf(opts, n)), n)
    decreases |opts|
  {
    hide Receive, SameField, After, Understood, Known;
    if opts == [] {
      NothingAfter(m, n);
    } else {
      var o, rest := opts[0], opts[1..];
      var m' := Receive(m, o.number, o.value).0;
      OneStatus(m, o);
      StillTwo(m, o);
      FieldIs(m', rest, n);
      if o.number == n {
        assert ValuesOf(opts, n) == [o.value] + ValuesOf(rest, n);
        AfterNext(m, n, o.value, ValuesOf(rest, n));
      } else {
        assert ValuesOf(opts, n) == ValuesOf(rest, n);
        AfterOther(m, n, o, ValuesOf(rest, n));
      }
      SameTrans(ReceiveAll(m', rest).0, After(m', n, ValuesOf(rest, n)), After(m, n, ValuesOf(opts, n)), n);
    }
  }

  lemma NothingAfter(m: Msg, n: nat)
    requires n != IF_NONE_MATCH
    ensures SameField(m, After(m, n, []), n)
  {
  }

  lemma SameTrans(a: Msg, b: Msg, c: Msg, n: nat)
    requires n != IF_NONE_MATCH && SameField(a, b, n) && SameField(b, c, n)
    ensures SameField(a, c, n)
  {
  }

  lemma StillTwo(m: Msg, o: Opt)
    requires |m.accept| <= 2
    ensures |Receive(m, o.number, o.value).0.accept| <= 2
  {
    hide IntValue, ParseBlock, Merge, Cut;
  }

  /** One more value in front. */
  lemma AfterNext(m: Msg, n: nat, v: seq<byte>, vs: seq<seq<byte>>)
    requires Carrying(n) && |m.accept| <= 2
    ensures SameField(After(Receive(m, n, v).0, n, vs), After(m, n, [v] + vs), n)
  {
    hide Receive, SameField, After;
    if IsText(n) {
      NextText(m, n, v, vs);
    } else if n == ACCEPT {
      NextAccept(m, v, vs);
    } else {
      NextSingle(m, n, v, vs);
    }
  }

  lemma NextText(m: Msg, n: nat, v: seq<byte>, vs: seq<seq<byte>>)
    requires IsText(n)
    ensures SameField(After(Receive(m, n, v).0, n, vs), After(m, n, [v] + vs), n)
  {
    hide IntValue, ParseBlock, Merge, Cut, MergeAll;
    TextNext(TextOf(m, n), v, vs, Separator(n));
    if vs == [] {
      NoText(Merge(TextOf(m, n), v, Separator(n)), Separator(n));
    }
  }

  lemma NoText(acc: seq<byte>, sep: byte)
    ensures MergeAll(acc, [], sep) == acc
  {
  }

  lemma NextAccept(m: Msg, v: seq<byte>, vs: seq<seq<byte>>)
    requires |m.accept| <= 2
    ensures SameField(After(Receive(m, ACCEPT, v).0, ACCEPT, vs), After(m, ACCEPT, [v] + vs), ACCEPT)
  {
    hide IntValue, FirstTwo, Shorts;
    TwoNext(m.accept, v, vs);
    TwoNext(Receive(m, ACCEPT, v).0.accept, v, vs);
    if vs == [] {
      assert Receive(m, ACCEPT, v).0.accept + Shorts([]) == Receive(m, ACCEPT, v).0.accept;
    }
  }

  lemma NextSingle(m: Msg, n: nat, v: seq<byte>, vs: seq<seq<byte>>)
    requires Carrying(n) && !IsText(n) && n != ACCEPT
    ensures SameField(After(Receive(m, n, v).0, n, vs), After(m, n, [v] + vs), n)
  {
    hide IntValue, ParseBlock, Merge, Cut, MergeAll, FirstTwo, Shorts;
  }

  lemma TextNext(acc: seq<byte>, v: seq<byte>, vs: seq<seq<byte>>, sep: byte)
    ensures MergeAll(acc, [v] + vs, sep) == MergeAll(Merge(acc, v, sep), vs, sep)
  {
    assert ([v] + vs)[1..] == vs;
  }

  lemma TwoNext(a: seq<nat>, v: seq<byte>, vs: seq<seq<byte>>)
    requires |a| <= 2
    ensures FirstTwo((if |a| < 2 then a + [IntValue(v) % 0x1_0000] else a) + Shorts(vs)) ==
      FirstTwo(a + Shorts([v] + vs))
    ensures FirstTwo(a) == a
  {
    hide IntValue;
    assert Shorts([v] + vs) == [IntValue(v) % 0x1_0000] + Shorts(vs);
    assert a + ([IntValue(v) % 0x1_0000] + Shorts(vs)) == (a + [IntValue(v) % 0x1_0000]) + Shorts(vs);
  }

  /** An option of another number. */
  lemma AfterOther(m: Msg, n: nat, o: Opt, vs: seq<seq<byte>>)
    requires Carrying(n) && o.number != n
    ensures SameField(After(Receive(m, o.number, o.value).0, n, vs), After(m, n, vs), n)
  {
    hide Receive, SameField, After;
    OtherField(m, o, n);
    AfterSame(Receive(m, o.number, o.value).0, m, n, vs);
  }

  lemma OtherField(m: Msg, o: Opt, n: nat)
    requires n != IF_NONE_MATCH && o.number != n
    ensures SameField(Receive(m, o.number, o.value).0, m, n)
  {
    hide IntValue, ParseBlock, Merge, Cut, MergeAll;
  }

  lemma AfterSame(a: Msg, b: Msg, n: nat, vs: seq<seq<byte>>)
    requires n != IF_NONE_MATCH && SameField(a, b, n)
    ensures SameField(After(a, n, vs), After(b, n, vs), n)
  {
    hide IntValue, ParseBlock, Merge, Cut, MergeAll, FirstTwo, Shorts;
  }

  /** Which options are recorded, and If-None-Match. */
  lemma {:induction false} OptionsAre(m: Msg, opts: seq<Opt>, n: nat)
    requires forall i :: 0 <= i < |opts| ==> Understood(opts[i])
    ensures n in ReceiveAll(m, opts).0.options <==> n in m.options || ValuesOf(opts, n) != []
    ensures ReceiveAll(m, opts).0.ifNoneMatch <==> m.ifNoneMatch || ValuesOf(opts, 5) != []
    decreases |opts|
  {
    hide Receive, Understood, Known;
    if opts != [] {
      OneStatus(m, opts[0]);
      OneOption(m, opts[0]);
      OptionsAre(Receive(m, opts[0].number, opts[0].value).0, opts[1..], n);
    }
  }

  lemma OneOption(m: Msg, o: Opt)
    ensures var r := Receive(m, o.number, o.value).0;
      r.options == m.options + {o.number} && (r.ifNoneMatch <==> m.ifNoneMatch || o.number == 5)
  {
    hide IntValue, ParseBlock, Merge, Cut;
  }

  /** The options without the elective ones the parser does not know. */
  function OnlyKnown(opts: seq<Opt>): (r: seq<Opt>)
    decreases |opts|
  {
    if opts == [] then [] else (if Known(opts[0].number) then [opts[0]] else []) + OnlyKnown(opts[1..])
  }

  lemma {:induction false} OnlyKnownIs(opts: seq<Opt>, n: nat)
    requires forall i :: 0 <= i < |opts| ==> Understood(opts[i])
    ensures forall i :: 0 <= i < |OnlyKnown(opts)| ==> Understood(OnlyKnown(opts)[i])
    ensures Known(n) ==> ValuesOf(OnlyKnown(opts), n) == ValuesOf(opts, n)
    decreases |opts|
  {
    hide Known;
    if opts != [] {
      OnlyKnownIs(opts[1..], n);
      if Known(opts[0].number) {
        assert OnlyKnown(opts)[0] == opts[0] && OnlyKnown(opts)[1..] == OnlyKnown(opts[1..]);
      } else {
        assert OnlyKnown(opts) == OnlyKnown(opts[1..]);
      }
    }
  }

  /** Unknown elective options leave every field as it is without them. */
  lemma ElectiveIgnored(m: Msg, opts: seq<Opt>, n: nat)
    requires Carrying(n) && |m.accept| <= 2 && forall i :: 0 <= i < |opts| ==> Understood(opts[i])
    ensures SameField(ReceiveAll(m, opts).0, ReceiveAll(m, OnlyKnown(opts)).0, n)
  {
    hide SameField, After, Understood, Known, ValuesOf;
    OnlyKnownIs(opts, n);
    FieldIs(m, opts, n);
    FieldIs(m, OnlyKnown(opts), n);
    SameBack(ReceiveAll(m, OnlyKnown(opts)).0, After(m, n, ValuesOf(opts, n)), n);
    SameTrans(ReceiveAll(m, opts).0, After(m, n, ValuesOf(opts, n)), ReceiveAll(m, OnlyKnown(opts)).0, n);
  }

  lemma SameBack(a: Msg, b: Msg, n: nat)
    requires n != IF_NONE_MATCH && SameField(a, b, n)
    ensures SameField(b, a, n)
  {
  }

  /** A critical option the parser does not know, with no Proxy-Uri in front of it. */
  predicate Bad(opts: seq<Opt>, i: nat)
    requires i < |opts|
  {
    !Known(opts[i].number) && opts[i].number % 2 == 1 && forall j :: 0 <= j < i ==> opts[j].number != 35
  }

  lemma ProxyKnown()
    ensures Known(35)
  {
  }

  lemma StatusExactly(m: Msg, opts: seq<Opt>)
    ensures ReceiveAll(m, opts).1 == BAD_OPTION_4_02 <==> exists i :: 0 <= i < |opts| && Bad(opts, i)
    ensures ReceiveAll(m, opts).1 == NO_ERROR <==> forall i :: 0 <= i < |opts| ==> Understood(opts[i])
    ensures ReceiveAll(m, opts).1 != BAD_REQUEST_4_00
  {
    hide ReceiveAll, Known;
    StatusIs(m, opts);
    var k := FirstRefused(opts);
    ProxyKnown();
    if k < |opts| && opts[k].number != 35 {
      assert Bad(opts, k);
    }
    if i :| 0 <= i < |opts| && Bad(opts, i) {
      assert !Understood(opts[i]);
    }
  }

  /** The options of a packet of this version. */
  function OptionsOf(d: seq<byte>): seq<Opt>
    requires Complete(d) && d[0] / 64 == 1
  {
    DecodeAll(d, HEADER_LEN + TokenLength(d), 0)
  }

  /**
   * A packet of this version is refused with 4.02 exactly when it has an unknown option of odd number, and no Proxy-Uri
   * in front of it; the first Proxy-Uri that is not behind such an option makes it 5.05.
   */
  lemma ParsedStatus(d: seq<byte>)
    requires Complete(d) && d[0] / 64 == 1
    ensures Parsed(d).1 == BAD_OPTION_4_02 <==> exists i :: 0 <= i < |OptionsOf(d)| && Bad(OptionsOf(d), i)
    ensures Parsed(d).1 == NO_ERROR <==> forall i :: 0 <= i < |OptionsOf(d)| ==> Understood(OptionsOf(d)[i])
    ensures Parsed(d).1 != BAD_REQUEST_4_00
  {
    hide Parsed, OptionsOf, Bad, Understood;
    ParsedIs(d);
    StatusExactly(HeaderOf(d, d[4..4 + TokenLength(d)]), OptionsOf(d));
  }

  lemma ParsedIs(d: seq<byte>)
    requires Complete(d) && d[0] / 64 == 1
    ensures var (m, st) := ReceiveAll(HeaderOf(d, d[4..4 + TokenLength(d)]), OptionsOf(d));
      Parsed(d).1 == st && Parsed(d).0 == m.(payload := Parsed(d).0.payload)
  {
    hide ReceiveAll, WellFormed, PayloadOf, HeaderOf;
  }

  /** What a packet that is not refused says in the field of an option, from the values of that option alone. */
  lemma ParsedField(d: seq<byte>, n: nat)
    requires Complete(d) && d[0] / 64 == 1 && Parsed(d).1 == NO_ERROR && Carrying(n)
    ensures SameField(Parsed(d).0,
      After(HeaderOf(d, d[4..4 + TokenLength(d)]), n, ValuesOf(OptionsOf(d), n)), n)
  {
    hide Parsed, OptionsOf, Bad, Understood, Known, After, SameField, ValuesOf;
    var m, opts := HeaderOf(d, d[4..4 + TokenLength(d)]), OptionsOf(d);
    ParsedIs(d);
    ParsedStatus(d);
    FieldIs(m, opts, n);
    PayloadApart(ReceiveAll(m, opts).0, Parsed(d).0.payload, After(m, n, ValuesOf(opts, n)), n);
  }

  lemma PayloadApart(a: Msg, payload: seq<byte>, b: Msg, n: nat)
    requires SameField(a, b, n)
    ensures SameField(a.(payload := payload), b, n)
  {
  }
}
