/** A directory as a list of 32-byte entries, and as the set of names in it. */
module FatEntries {
  import opened Octets

  const DDE: byte := 0xE5
  /** A directory name in its 8.3 form: 11 bytes, never looking like an unused entry. */
  predicate IsName(name: seq<byte>) {
    |name| == 11 && name[0] != 0 && name[0] != DDE
  }

  predicate AllEntries(es: seq<seq<byte>>) {
    forall i :: 0 <= i < |es| ==> |es[i]| == 32
  }

  /** Bit 3 of the attribute byte marks a volume label. */
  predicate IsLabel(e: seq<byte>)
    requires |e| == 32
  {
    e[11] / 8 % 2 == 1
  }

  predicate Matches(e: seq<byte>, name: seq<byte>)
    requires |e| == 32
  {
    !IsLabel(e) && e[..11] == name
  }

  /** The test dir_register makes for a blank entry. */
  predicate IsBlank(e: seq<byte>)
    requires |e| == 32
  {
    e[0] == DDE || e[0] == 0
  }

  /** What marks an entry as blank or as a label, and that labels match nothing. */
  lemma MarksAre(e: seq<byte>, name: seq<byte>)
    requires |e| == 32
    ensures IsBlank(e) <==> e[0] in [0x00, 0xE5]
    ensures IsLabel(e) <==> e[11] % 16 >= 8
    ensures Matches(e, name) <==> e[11] % 16 < 8 && name == e[..11]
  {
  }

  /** Nothing in use follows the first never-used entry. */
  ghost predicate Tidy(es: seq<seq<byte>>)
    requires AllEntries(es)
  {
    forall i, j :: 0 <= i < j < |es| && es[i][0] == 0 ==> es[j][0] == 0
  }

  /** No two entries carry the same name. */
  ghost predicate Unique(es: seq<seq<byte>>)
    requires AllEntries(es)
  {
    forall i, j, name :: 0 <= i < j < |es| && IsName(name) && Matches(es[i], name) ==> !Matches(es[j], name)
  }

  /** The directory has an entry of this name. */
  ghost predicate Has(es: seq<seq<byte>>, name: seq<byte>)
    requires AllEntries(es)
  {
    exists i :: 0 <= i < |es| && Matches(es[i], name)
  }

  /** dir_find stops at k: the entry of that name. */
  ghost predicate FoundAt(es: seq<seq<byte>>, name: seq<byte>, k: nat)
    requires AllEntries(es)
  {
    k < |es| && Matches(es[k], name) && es[k][0] != 0 && NotBefore(es, name, k)
  }

  ghost predicate NotBefore(es: seq<seq<byte>>, name: seq<byte>, k: nat)
    requires AllEntries(es)
  {
    k <= |es| && forall j :: 0 <= j < k ==> es[j][0] != 0 && !Matches(es[j], name)
  }

  /** dir_find gives up at k: the end of the directory or a never-used entry. */
  ghost predicate MissingAt(es: seq<seq<byte>>, name: seq<byte>, k: nat)
    requires AllEntries(es)
  {
    NotBefore(es, name, k) && (k == |es| || es[k][0] == 0)
  }

  /** Finding decides membership; deleted entries never match because no name begins like one. */
  lemma FindDecides(es: seq<seq<byte>>, name: seq<byte>, k: nat)
    requires AllEntries(es) && Tidy(es) && IsName(name)
    ensures FoundAt(es, name, k) ==> Has(es, name) && es[k][0] != DDE
    ensures MissingAt(es, name, k) ==> !Has(es, name)
  {
    if FoundAt(es, name, k) {
      assert es[k][..11][0] == es[k][0];
    }
    if MissingAt(es, name, k) {
      forall i | 0 <= i < |es| ensures !Matches(es[i], name) {
        if i >= k {
          assert es[i][..11][0] == es[i][0];
        }
      }
    }
  }

  /** A fresh entry: the name and nothing else. */
  function NewEntry(name: seq<byte>): (e: seq<byte>)
    requires |name| == 11
    ensures |e| == 32
  {
    name + seq(21, i => 0)
  }

  lemma NewMatches(name: seq<byte>, other: seq<byte>)
    requires |name| == 11
    ensures Matches(NewEntry(name), other) <==> other == name
    ensures NewEntry(name)[0] == name[0]
    ensures NewEntry(name)[..11] == name && forall i :: 11 <= i < 32 ==> NewEntry(name)[i] == 0
  {
    assert NewEntry(name)[..11] == name;
  }

  /** The first blank entry. */
  ghost predicate BlankAt(es: seq<seq<byte>>, k: nat)
    requires AllEntries(es)
  {
    k < |es| && IsBlank(es[k]) && forall j :: 0 <= j < k ==> !IsBlank(es[j])
  }

  /** Registering a name that is not there inserts it: nothing else comes or goes, and the invariants hold on. */
  lemma RegisterInserts(es: seq<seq<byte>>, name: seq<byte>, k: nat, es': seq<seq<byte>>)
    requires AllEntries(es) && Tidy(es) && Unique(es) && IsName(name) && !Has(es, name)
    requires BlankAt(es, k) && es' == es[k := NewEntry(name)]
    ensures AllEntries(es') && Tidy(es') && Unique(es')
    ensures forall n :: IsName(n) ==> (Has(es', n) <==> Has(es, n) || n == name)
  {
    NewMatches(name, name);
    forall i, j, n | 0 <= i < j < |es'| && IsName(n) && Matches(es'[i], n) ensures !Matches(es'[j], n) {
      NewMatches(name, n);
    }
    forall n | IsName(n) ensures Has(es', n) <==> Has(es, n) || n == name {
      NewMatches(name, n);
      BlankMatches(es[k], n);
      if Has(es, n) {
        var i :| 0 <= i < |es| && Matches(es[i], n);
        assert es'[i] == es[i];
      }
      if n == name {
        assert Matches(es'[k], n);
      }
    }
  }

  lemma BlankMatches(e: seq<byte>, n: seq<byte>)
    requires |e| == 32 && IsBlank(e) && IsName(n)
    ensures !Matches(e, n)
  {
    assert e[..11][0] == e[0];
  }

  lemma OnlyAt(es: seq<seq<byte>>, name: seq<byte>, k: nat)
    requires AllEntries(es) && Unique(es) && IsName(name) && k < |es| && Matches(es[k], name)
    ensures forall i :: 0 <= i < |es| && i != k ==> !Matches(es[i], name)
  {
  }

  /** The entry with its first byte overwritten by the deletion mark. */
  function Deleted(e: seq<byte>): (r: seq<byte>)
    requires |e| == 32
    ensures |r| == 32
  {
    e[0 := DDE]
  }

  /** Removing the entry found under a name deletes exactly that name. */
  lemma RemoveDeletes(es: seq<seq<byte>>, name: seq<byte>, k: nat, es': seq<seq<byte>>)
    requires AllEntries(es) && Tidy(es) && Unique(es) && IsName(name) && FoundAt(es, name, k)
    requires es' == es[k := Deleted(es[k])]
    ensures AllEntries(es') && Tidy(es') && Unique(es')
    ensures forall n :: IsName(n) ==> (Has(es', n) <==> Has(es, n) && n != name)
  {
    OnlyAt(es, name, k);
    forall n | IsName(n) ensures !Matches(es'[k], n) && (n != name ==> !Matches(es[k], n)) {
      BlankMatches(es'[k], n);
    }
    forall n | IsName(n) ensures Has(es', n) <==> Has(es, n) && n != name {
      if Has(es', n) {
        var i :| 0 <= i < |es'| && Matches(es'[i], n);
        assert i != k && es[i] == es'[i];
      }
      if Has(es, n) && n != name {
        var i :| 0 <= i < |es| && Matches(es[i], n);
        assert es'[i] == es[i];
      }
    }
  }

  /** Zero entries added at the end of the list bring no names and keep it tidy. */
  lemma StretchNeutral(es: seq<seq<byte>>, more: seq<seq<byte>>)
    requires AllEntries(es) && AllEntries(more) && Tidy(es) && Unique(es)
    requires forall i :: 0 <= i < |more| ==> more[i][0] == 0
    ensures AllEntries(es + more) && Tidy(es + more) && Unique(es + more)
    ensures forall n :: IsName(n) ==> (Has(es + more, n) <==> Has(es, n))
  {
    var all := es + more;
    forall i, n | |es| <= i < |all| && IsName(n) ensures !Matches(all[i], n) {
      BlankMatches(all[i], n);
    }
    forall n | IsName(n) ensures Has(all, n) <==> Has(es, n) {
      if Has(es, n) {
        var i :| 0 <= i < |es| && Matches(es[i], n);
        assert all[i] == es[i];
      }
      if Has(all, n) {
        var i :| 0 <= i < |all| && Matches(all[i], n);
        assert i < |es| && all[i] == es[i];
      }
    }
  }
}
