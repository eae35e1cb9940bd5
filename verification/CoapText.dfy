/** Strings carried by repeated options: how they are cut at a separator, and joined again. */
module CoapText {
  import opened Octets

  /** The parts written for s, given that the current part began at start and j is the next position looked at. */
  function PartsFrom(s: seq<byte>, sep: byte, start: nat, j: nat): seq<seq<byte>>
    requires start <= j && start <= |s| + 1
    decreases |s| + 1 - j
  {
    if j > |s| then []
    else if j == |s| || s[j] == sep then [s[start..j]] + PartsFrom(s, sep, j + 1, j + 2)
    else PartsFrom(s, sep, start, j + 1)
  }

  function Parts(s: seq<byte>, sep: byte): seq<seq<byte>> {
    PartsFrom(s, sep, 0, 0)
  }

  /** What merging one more option value leaves. */
  function Merge(acc: seq<byte>, v: seq<byte>, sep: byte): seq<byte> {
    if |acc| > 0 then acc + [sep] + v else v
  }

  function MergeAll(acc: seq<byte>, vs: seq<seq<byte>>, sep: byte): seq<byte>
    decreases |vs|
  {
    if vs == [] then acc else MergeAll(Merge(acc, vs[0], sep), vs[1..], sep)
  }

  /** Number of separators at the end of s. */
  function Trailing(s: seq<byte>, sep: byte): (n: nat)
    ensures n <= |s|
    ensures forall i :: |s| - n <= i < |s| ==> s[i] == sep
    ensures n < |s| ==> s[|s| - n - 1] != sep
  {
    if s == [] || s[|s| - 1] != sep then 0 else 1 + Trailing(s[..|s| - 1], sep)
  }

  /**
   * Merging the parts of s gives s back: it is empty, or does not begin with the separator and ends in an even number
   * of them.
   */
  predicate Survives(s: seq<byte>, sep: byte) {
    s == [] || (s[0] != sep && Trailing(s, sep) % 2 == 0)
  }

  /** The scan runs past the end just after a final separator. */
  predicate Drops(s: seq<byte>, sep: byte, start: nat, j: nat)
    requires start <= j && start <= |s| + 1
    decreases |s| + 1 - j
  {
    if j > |s| then start == |s|
    else if j == |s| then false
    else if s[j] == sep then Drops(s, sep, j + 1, j + 2)
    else Drops(s, sep, start, j + 1)
  }

  /** Once something has been merged, the rest joins on, save for a separator the scan runs past. */
  lemma {:induction false} MergeRest(s: seq<byte>, sep: byte, start: nat, j: nat, acc: seq<byte>)
    requires 0 < start <= j && start <= |s| && (j > |s| ==> start == |s|)
    requires |acc| > 0 && acc + [sep] == s[..start]
    ensures MergeAll(acc, PartsFrom(s, sep, start, j), sep) == if Drops(s, sep, start, j) then s[..|s| - 1] else s
    decreases |s| + 1 - j
  {
    var ps := PartsFrom(s, sep, start, j);
    if j > |s| {
      assert acc == (acc + [sep])[..start - 1] == s[..start - 1];
    } else if j == |s| || s[j] == sep {
      var acc' := Merge(acc, s[start..j], sep);
      assert acc' == s[..start] + s[start..j] == s[..j];
      assert ps[1..] == PartsFrom(s, sep, j + 1, j + 2);
      if j < |s| {
        assert acc' + [sep] == s[..j + 1];
        MergeRest(s, sep, j + 1, j + 2, acc');
      } else {
        assert s[..j] == s;
      }
    } else {
      MergeRest(s, sep, start, j + 1, acc);
    }
  }

  /** The same for the first part of a string that does not begin with the separator. */
  lemma {:induction false} MergeFirst(s: seq<byte>, sep: byte, j: nat)
    requires 0 < j <= |s| && s[0] != sep
    ensures MergeAll([], PartsFrom(s, sep, 0, j), sep) == if Drops(s, sep, 0, j) then s[..|s| - 1] else s
    decreases |s| - j
  {
    var ps := PartsFrom(s, sep, 0, j);
    if j == |s| || s[j] == sep {
      assert Merge([], s[0..j], sep) == s[..j];
      assert ps[1..] == PartsFrom(s, sep, j + 1, j + 2);
      if j < |s| {
        assert s[..j] + [sep] == s[..j + 1];
        MergeRest(s, sep, j + 1, j + 2, s[..j]);
      } else {
        assert s[..j] == s;
      }
    } else {
      MergeFirst(s, sep, j + 1);
    }
  }

  /** A run of separators up to the end loses its last one when it is odd. */
  lemma {:induction false} DropsRun(s: seq<byte>, sep: byte, start: nat, j: nat)
    requires start <= j <= |s| && forall i :: j <= i < |s| ==> s[i] == sep
    ensures Drops(s, sep, start, j) <==> (|s| - j) % 2 == 1
    decreases |s| - j
  {
    if j + 2 <= |s| {
      DropsRun(s, sep, j + 1, j + 2);
    }
  }

  /** The scan looks at the first of the separators the string ends in. */
  lemma {:induction false} DropsParity(s: seq<byte>, sep: byte, start: nat, j: nat)
    requires start <= j <= |s| - Trailing(s, sep)
    ensures Drops(s, sep, start, j) <==> Trailing(s, sep) % 2 == 1
    decreases |s| - j
  {
    var t := |s| - Trailing(s, sep);
    if j == t {
      DropsRun(s, sep, start, j);
    } else if s[j] == sep {
      DropsParity(s, sep, j + 1, j + 2);
    } else {
      DropsParity(s, sep, start, j + 1);
    }
  }

  /** No merge makes more of the parts than there was. */
  lemma {:induction false} MergeBound(s: seq<byte>, sep: byte, start: nat, j: nat, acc: seq<byte>)
    requires start <= j && start <= |s| + 1
    ensures |MergeAll(acc, PartsFrom(s, sep, start, j), sep)| <=
      |acc| + (if |acc| > 0 then 1 else 0) + (if start > |s| then 0 else |s| - start)
    decreases |s| + 1 - j
  {
    if j <= |s| {
      var ps := PartsFrom(s, sep, start, j);
      if j == |s| || s[j] == sep {
        assert ps[0] == s[start..j] && ps[1..] == PartsFrom(s, sep, j + 1, j + 2);
        MergeBound(s, sep, j + 1, j + 2, Merge(acc, s[start..j], sep));
      } else {
        MergeBound(s, sep, start, j + 1, acc);
      }
    }
  }

  /** Exactly which strings the receiver puts together again. */
  lemma TextBack(s: seq<byte>, sep: byte)
    ensures MergeAll([], Parts(s, sep), sep) == s <==> Survives(s, sep)
  {
    if s == [] {
      assert Parts(s, sep) == [[]];
    } else if s[0] == sep {
      assert Parts(s, sep)[0] == [] && Parts(s, sep)[1..] == PartsFrom(s, sep, 1, 2);
      MergeBound(s, sep, 1, 2, []);
    } else {
      MergeFirst(s, sep, 1);
      DropsParity(s, sep, 0, 1);
    }
  }

  /** In particular every string that neither begins nor ends with the separator. */
  lemma PlainSurvives(s: seq<byte>, sep: byte)
    requires s == [] || (s[0] != sep && s[|s| - 1] != sep)
    ensures MergeAll([], Parts(s, sep), sep) == s
  {
    TextBack(s, sep);
  }

  /** A path that ends in one separator loses it. */
  lemma SlashLost()
    ensures MergeAll([], Parts([0x61, 0x2F], 0x2F), 0x2F) == [0x61]
  {
    var s: seq<byte> := [0x61, 0x2F];
    assert s[0..1] == [0x61] && PartsFrom(s, 0x2F, 2, 3) == [];
    assert Parts(s, 0x2F) == PartsFrom(s, 0x2F, 0, 1) == [[0x61]];
  }

  /** A string option is always written, even an empty one. */
  lemma SomePart(s: seq<byte>, sep: byte, start: nat, j: nat)
    requires start <= j <= |s|
    ensures PartsFrom(s, sep, start, j) != []
    decreases |s| - j
  {
  }

  /** Merging in two goes. */
  lemma {:induction false} MergeSplit(acc: seq<byte>, a: seq<seq<byte>>, v: seq<byte>, sep: byte)
    ensures MergeAll(acc, a + [v], sep) == Merge(MergeAll(acc, a, sep), v, sep)
    decreases |a|
  {
    if a == [] {
      assert ([] + [v])[1..] == [];
    } else {
      assert (a + [v])[0] == a[0] && (a + [v])[1..] == a[1..] + [v];
      MergeSplit(Merge(acc, a[0], sep), a[1..], v, sep);
    }
  }
}
