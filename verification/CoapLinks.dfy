/** The list of resources in link format, printed a window at a time into a buffer that never holds all of it. */
module CoapLinks {
  import opened Octets
  import opened Arith

  datatype Resource = Resource(url: seq<byte>, attributes: seq<byte>)

  const COMMA: byte := 0x2C
  const SEMICOLON: byte := 0x3B
  const LESS: byte := 0x3C
  const GREATER: byte := 0x3E

  /** One link. */
  function Link(r: Resource): seq<byte> {
    [LESS, SLASH] + r.url + [GREATER] + (if r.attributes != [] then [SEMICOLON] + r.attributes else [])
  }

  /** The links of the first i resources. */
  function Text(rs: seq<Resource>, i: nat): seq<byte>
    requires i <= |rs|
  {
    if i == 0 then [] else Text(rs, i - 1) + (if i > 1 then [COMMA] else []) + Link(rs[i - 1])
  }

  lemma {:induction false} TextGrows(rs: seq<Resource>, i: nat)
    requires i <= |rs|
    ensures i == 0 || Text(rs, i) != []
    ensures Text(rs, i) <= Text(rs, |rs|)
    decreases |rs| - i
  {
    if i < |rs| {
      TextGrows(rs, i + 1);
      assert Text(rs, i) <= Text(rs, i + 1);
    }
  }

  /** At most size bytes of the text from position offset on. */
  function Window(t: seq<byte>, offset: nat, size: nat): (w: seq<byte>)
    ensures |w| <= size
    ensures offset <= |t| ==> |w| == Least(size, |t| - offset)
    ensures offset > |t| ==> w == []
  {
    if offset > |t| then [] else t[offset..offset + Least(size, |t| - offset)]
  }

  /** One more character. */
  lemma WindowChar(t: seq<byte>, c: byte, offset: nat, size: nat)
    ensures var w := Window(t, offset, size);
      Window(t + [c], offset, size) == if |t| >= offset && |w| < size then w + [c] else w
  {
  }

  /** More characters than the first skip ones of s. */
  lemma WindowString(t: seq<byte>, s: seq<byte>, offset: nat, size: nat)
    ensures var w, skip := Window(t, offset, size), if offset > |t| then offset - |t| else 0;
      Window(t + s, offset, size) == if |t| + |s| > offset then w + s[skip..][..Least(|s| - skip, size - |w|)] else w
  {
    var w, u := Window(t, offset, size), t + s;
    if offset > |t| {
      if |u| > offset {
        assert u[offset..] == s[offset - |t|..];
        var n := Least(size, |u| - offset);
        assert u[offset..offset + n] == u[offset..][..n];
      }
    } else {
      var n := Least(size, |u| - offset);
      assert u[offset..] == t[offset..] + s;
      assert u[offset..offset + n] == u[offset..][..n];
      assert s[0..] == s;
    }
  }

  /** A full window stays. */
  lemma WindowFull(t: seq<byte>, u: seq<byte>, offset: nat, size: nat)
    requires t <= u && |Window(t, offset, size)| == size
    ensures Window(u, offset, size) == Window(t, offset, size)
  {
    if size > 0 {
      assert u[offset..offset + size] == t[offset..offset + size];
    } else {
      assert Window(u, offset, size) == [];
    }
  }

  /** The bytes of the text t that belong in the buffer are there. */
  ghost predicate Printed(buffer: seq<byte>, bufpos: nat, t: seq<byte>, offset: nat, size: nat) {
    bufpos <= |buffer| && buffer[..bufpos] == Window(t, offset, size)
  }

  lemma PrintedNone(buffer: seq<byte>, offset: nat, size: nat)
    ensures Printed(buffer, 0, [], offset, size)
  {
  }

  lemma PrintedSize(buffer: seq<byte>, bufpos: nat, t: seq<byte>, offset: nat, size: nat)
    requires Printed(buffer, bufpos, t, offset, size)
    ensures bufpos <= size && bufpos == if offset > |t| then 0 else Least(size, |t| - offset)
  {
  }

  /** One character, if it lies in the window. */
  method PutChar(buffer: array<byte>, strpos: nat, bufpos: nat, offset: nat, size: nat, c: byte, ghost t: seq<byte>)
    returns (s: nat, b: nat)
    requires size < buffer.Length && strpos == |t| && Printed(buffer[..], bufpos, t, offset, size)
    modifies buffer
    ensures s == |t + [c]| && Printed(buffer[..], b, t + [c], offset, size)
  {
    WindowChar(t, c, offset, size);
    b := bufpos;
    if strpos >= offset && bufpos < size {
      buffer[b] := c;
      b := b + 1;
      assert buffer[..b] == old(buffer[..bufpos]) + [c];
    }
    s := strpos + 1;
  }

  /** snprintf of one string: what fits, and a terminator; the result is the length of the whole string. */
  method Snprintf(buffer: array<byte>, at: nat, room: nat, s: seq<byte>) returns (n: nat)
    requires room > 0 && at + room <= buffer.Length
    modifies buffer
    ensures n == |s|
    ensures var k := Least(|s|, room - 1); buffer[..at + k] == old(buffer[..at]) + s[..k]
  {
    var k := Least(|s|, room - 1);
    forall i | 0 <= i < k {
      buffer[at + i] := s[i];
    }
    buffer[at + k] := 0;
    n := |s|;
    assert buffer[..at + k] == buffer[..at] + buffer[at..at + k];
    assert buffer[at..at + k] == s[..k];
  }

  /** A string, as far as it lies in the window; the loop ends when the buffer has no more room. */
  method PutString(buffer: array<byte>, strpos: nat, bufpos: nat, offset: nat, size: nat, text: seq<byte>,
    ghost t: seq<byte>)
    returns (b: nat, full: bool)
    requires size < buffer.Length && strpos == |t| && Printed(buffer[..], bufpos, t, offset, size)
    modifies buffer
    ensures full <==> |t + text| > offset && |t + text| >= offset + size
    ensures Printed(buffer[..], Least(b, size), t + text, offset, size) && (if full then b >= size else b <= size)
  {
    WindowString(t, text, offset, size);
    b, full := bufpos, false;
    if strpos + |text| > offset {
      var skip := if offset > strpos then offset - strpos else 0;
      var n := Snprintf(buffer, bufpos, size - bufpos + 1, text[skip..]);
      b := b + n;
      full := b >= size;
    }
  }

  /** A text of n bytes that ends with this resource leaves no room, or does not end before the window does. */
  predicate Overfull(r: Resource, n: nat, offset: nat, size: nat) {
    n > offset + size || (n == offset + size && size > 0 && r.attributes != [])
  }

  lemma PrintedFull(buffer: seq<byte>, t: seq<byte>, u: seq<byte>, offset: nat, size: nat)
    requires Printed(buffer, size, t, offset, size) && t <= u
    ensures Printed(buffer, size, u, offset, size)
  {
    WindowFull(t, u, offset, size);
  }

  /** The part of a link up to the end of its path. */
  function Open(url: seq<byte>): seq<byte> {
    [LESS, SLASH] + url
  }

  /** The rest: the closing bracket, and the attributes if there are any. */
  function Rest(r: Resource): seq<byte> {
    [GREATER] + (if r.attributes != [] then [SEMICOLON] + r.attributes else [])
  }

  lemma LinkParts(r: Resource, t: seq<byte>)
    ensures t + Link(r) == (t + Open(r.url)) + Rest(r)
    ensures |Rest(r)| > 0
  {
  }

  method PutOpen(url: seq<byte>, buffer: array<byte>, strpos: nat, bufpos: nat, offset: nat, size: nat,
    ghost t: seq<byte>)
    returns (s: nat, b: nat, full: bool)
    requires size < buffer.Length && strpos == |t| && Printed(buffer[..], bufpos, t, offset, size)
    modifies buffer
    ensures full <==> |t + Open(url)| > offset && |t + Open(url)| >= offset + size
    ensures Printed(buffer[..], Least(b, size), t + Open(url), offset, size)
    ensures s > 0 && s + |url| == |t + Open(url)| && if full then b >= size else b <= size
  {
    hide Printed;
    s, b := PutChar(buffer, strpos, bufpos, offset, size, LESS, t);
    s, b := PutChar(buffer, s, b, offset, size, SLASH, t + [LESS]);
    assert t + [LESS] + [SLASH] + url == t + Open(url);
    b, full := PutString(buffer, s, b, offset, size, url, t + [LESS] + [SLASH]);
  }

  method PutRest(r: Resource, buffer: array<byte>, strpos: nat, bufpos: nat, offset: nat, size: nat, ghost t: seq<byte>)
    returns (s: nat, b: nat, full: bool)
    requires size < buffer.Length && strpos == |t| && Printed(buffer[..], bufpos, t, offset, size)
    modifies buffer
    ensures full <==> r.attributes != [] && |t + Rest(r)| > offset && |t + Rest(r)| >= offset + size
    ensures Printed(buffer[..], Least(b, size), t + Rest(r), offset, size)
    ensures if full then b >= size && s > 0 else b <= size && s == |t + Rest(r)|
  {
    hide Printed;
    s, b := PutChar(buffer, strpos, bufpos, offset, size, GREATER, t);
    full := false;
    if r.attributes != [] {
      s, b := PutChar(buffer, s, b, offset, size, SEMICOLON, t + [GREATER]);
      assert t + [GREATER] + [SEMICOLON] + r.attributes == t + Rest(r);
      b, full := PutString(buffer, s, b, offset, size, r.attributes, t + [GREATER] + [SEMICOLON]);
      if !full {
        s := s + |r.attributes|;
      }
    } else {
      assert t + [GREATER] == t + Rest(r);
      PrintedSize(buffer[..], b, t + [GREATER], offset, size);
    }
  }

  /** One pass of the loop over the resources, the comma apart. */
  method PutLink(r: Resource, buffer: array<byte>, strpos: nat, bufpos: nat, offset: nat, size: nat, ghost t: seq<byte>)
    returns (s: nat, b: nat, stop: bool)
    requires size < buffer.Length && strpos == |t| && Printed(buffer[..], bufpos, t, offset, size)
    modifies buffer
    ensures stop <==> Overfull(r, |t + Link(r)|, offset, size)
    ensures Printed(buffer[..], Least(b, size), t + Link(r), offset, size) && s > 0
    ensures if stop then b >= size else s == |t + Link(r)| && b <= size
  {
    hide Printed, Link, Open, Rest;
    LinkParts(r, t);
    ghost var u := t + Open(r.url);
    s, b, stop := PutOpen(r.url, buffer, strpos, bufpos, offset, size, t);
    if stop {
      PrintedSize(buffer[..], Least(b, size), u, offset, size);
      PrintedFull(buffer[..], u, u + Rest(r), offset, size);
      return;
    }
    s, b, stop := PutRest(r, buffer, s + |r.url|, b, offset, size, u);
    PrintedSize(buffer[..], Least(b, size), u + Rest(r), offset, size);
    if !stop {
      stop := b >= size && s - b > offset;
    }
  }

  datatype Reply = Links(length: nat) | BlockOutOfScope | Nothing

  /** Nothing is left after the window, and the window does not end just where the last resource's attributes do. */
  predicate Done(rs: seq<Resource>, offset: nat, size: nat) {
    rs == [] || !Overfull(rs[|rs| - 1], |Text(rs, |rs|)|, offset, size)
  }

  /** Text that reaches past the window before the last resource does so after it too. */
  lemma {:induction false} OverfullStays(rs: seq<Resource>, i: nat, offset: nat, size: nat)
    requires 0 < i <= |rs| && Overfull(rs[i - 1], |Text(rs, i)|, offset, size)
    ensures Overfull(rs[|rs| - 1], |Text(rs, |rs|)|, offset, size)
    decreases |rs| - i
  {
    if i < |rs| {
      assert |Text(rs, i + 1)| > |Text(rs, i)|;
      OverfullStays(rs, i + 1, offset, size);
    }
  }

  /**
   * well_known_core_handler without a filter: the buffer gets the window of the whole list of links, and the offset
   * for the next window is -1 exactly when the list is done.
   */
  method PrintLinks(rs: seq<Resource>, buffer: array<byte>, preferred: nat, offset: nat)
    returns (reply: Reply, next: int)
    requires preferred < buffer.Length
    modifies buffer
    ensures var w := Window(Text(rs, |rs|), offset, preferred); buffer[..|w|] == w
    ensures next == -1 && reply.Links? ==> reply.length <= preferred
    ensures reply.Links? ==> Least(reply.length, preferred) == |Window(Text(rs, |rs|), offset, preferred)|
    ensures preferred > 0 ==> (reply.Links? <==> offset < |Text(rs, |rs|)|)
    ensures preferred > 0 && !reply.Links? ==> (reply.Nothing? <==> rs == [])
    ensures next == if Done(rs, offset, preferred) then -1 else offset + preferred
  {
    hide Window, Overfull, Link;
    var strpos: nat, bufpos: nat := 0, 0;
    var i: nat, stop := 0, false;
    PrintedNone(buffer[..], offset, preferred);
    while i < |rs| && !stop
      invariant i <= |rs| && (strpos > 0 <==> i > 0)
      invariant Printed(buffer[..], Least(bufpos, preferred), Text(rs, i), offset, preferred)
      invariant stop ==> i > 0 && bufpos >= preferred
      invariant !stop ==> bufpos <= preferred && strpos == |Text(rs, i)|
      invariant i > 0 ==> (stop <==> Overfull(rs[i - 1], |Text(rs, i)|, offset, preferred))
      decreases |rs| - i, !stop
    {
      ghost var t := Text(rs, i);
      if strpos > 0 {
        strpos, bufpos := PutChar(buffer, strpos, bufpos, offset, preferred, COMMA, t);
        t := t + [COMMA];
      }
      PrintedSize(buffer[..], bufpos, t, offset, preferred);
      strpos, bufpos, stop := PutLink(rs[i], buffer, strpos, bufpos, offset, preferred, t);
      assert Text(rs, i + 1) == t + Link(rs[i]);
      i := i + 1;
    }
    TextGrows(rs, i);
    PrintedSize(buffer[..], Least(bufpos, preferred), Text(rs, i), offset, preferred);
    if stop {
      PrintedFull(buffer[..], Text(rs, i), Text(rs, |rs|), offset, preferred);
      OverfullStays(rs, i, offset, preferred);
    }
    PrintedSize(buffer[..], Least(bufpos, preferred), Text(rs, |rs|), offset, preferred);
    reply := if bufpos > 0 then Links(bufpos) else if strpos > 0 then BlockOutOfScope else Nothing;
    next := if stop then offset + preferred else -1;
  }

  /**
   * The end is not always noticed: attributes that exactly fill the window leave nothing, and still another window is
   * announced. Here with a window of 16 bytes, the smallest size a block can have.
   */
  lemma MoreThanNothing()
    ensures var rs := [Resource([0x61], seq(11, _ => 0x62))];
      |Text(rs, 1)| == 16 && Window(Text(rs, 1), 16, 16) == [] && !Done(rs, 0, 16)
  {
    var rs := [Resource([0x61], seq(11, _ => 0x62))];
    assert Text(rs, 1) == Text(rs, 0) + Link(rs[0]);
  }
}
