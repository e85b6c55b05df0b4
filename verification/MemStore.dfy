/** The key-value store behind request parameters: a slice that reuses its spare capacity. */
module MemStore {
  import Slices

  datatype Entry = Entry(key: string, value: string, immutable: bool)

  /** Where `key` is, or the number of entries. */
  function IndexOf(es: seq<Entry>, key: string): (i: nat)
    ensures i <= |es|
    ensures i < |es| ==> es[i].key == key
    ensures forall j :: 0 <= j < i ==> es[j].key != key
  {
    if es == [] || es[0].key == key then 0
    else
      var i := IndexOf(es[1..], key);
      assert forall j :: 0 < j < i + 1 ==> es[j] == es[1..][j - 1];
      i + 1
  }

  /** Saving: a new key goes to the end; an old one is overwritten unless it is immutable and the caller is not. */
  function Saved(es: seq<Entry>, key: string, value: string, immutable: bool): seq<Entry> {
    var i := IndexOf(es, key);
    if i == |es| then es + [Entry(key, value, immutable)]
    else if es[i].immutable && !immutable then es
    else es[i := Entry(key, value, immutable)]
  }

  function Looked(es: seq<Entry>, key: string): (v: seq<string>) {
    var i := IndexOf(es, key);
    if i == |es| then [] else [es[i].value]
  }

  function Removed(es: seq<Entry>, key: string): seq<Entry> {
    var i := IndexOf(es, key);
    if i == |es| then es else es[..i] + es[i + 1..]
  }

  class Store {
    /** The backing array; its length is the capacity. */
    var buf: array<Entry>
    var len: nat

    ghost predicate Valid()
      reads this
    {
      len <= buf.Length
    }

    ghost function Contents(): seq<Entry>
      requires Valid()
      reads this, buf
    {
      buf[..len]
    }

    constructor (capacity: nat, blank: Entry)
      ensures Valid() && fresh(buf) && Contents() == []
    {
      buf := new Entry[capacity](_ => blank);
      len := 0;
    }

    method Find(key: string) returns (i: nat)
      requires Valid()
      ensures i == IndexOf(Contents(), key)
    {
      i := 0;
      while i < len
        invariant 0 <= i <= len && forall j :: 0 <= j < i ==> buf[j].key != key
      {
        if buf[i].key == key {
          IndexOfIs(Contents(), key, i);
          return;
        }
        i := i + 1;
      }
      IndexOfIs(Contents(), key, i);
    }

    /** Save in place, in spare capacity, or in a larger array. */
    method Save(key: string, value: string, immutable: bool)
      requires Valid()
      modifies this, buf
      ensures Valid() && (buf == old(buf) || fresh(buf))
      ensures Contents() == Saved(old(Contents()), key, value, immutable)
    {
      var i := Find(key);
      if i < len {
        if buf[i].immutable && !immutable {
          return;
        }
        buf[i] := Entry(key, value, immutable);
        assert Contents() == old(Contents())[i := Entry(key, value, immutable)];
        return;
      }
      if len < buf.Length {
        buf[len] := Entry(key, value, immutable);
      } else {
        Grow(Entry(key, value, immutable));
      }
      len := len + 1;
      assert Contents() == old(Contents()) + [Entry(key, value, immutable)];
    }

    /** Move to an array of a larger capacity, however much larger. */
    method Grow(e: Entry)
      requires Valid() && len == buf.Length
      modifies this`buf
      ensures fresh(buf) && len < buf.Length && buf[..len] == old(buf[..len]) && buf[len] == e
    {
      var capacity: nat :| capacity > len;
      var bigger := new Entry[capacity](_ => e);
      for i := 0 to len
        invariant bigger[..i] == buf[..i] && forall j :: i <= j < capacity ==> bigger[j] == e
        modifies bigger
      {
        bigger[i] := buf[i];
      }
      buf := bigger;
    }

    method Get(key: string) returns (v: seq<string>)
      requires Valid()
      ensures v == Looked(Contents(), key)
    {
      var i := Find(key);
      v := if i < len then [buf[i].value] else [];
    }

    /** Close the gap in place. */
    method Remove(key: string) returns (removed: bool)
      requires Valid()
      modifies this`len, buf
      ensures Valid() && Contents() == Removed(old(Contents()), key)
      ensures removed == (IndexOf(old(Contents()), key) < old(len))
    {
      var i := Find(key);
      removed := i < len;
      if removed {
        ghost var whole := buf[..];
        assert whole[..len] == Contents();
        Slices.ClosedFront(whole, i, len);
        Slices.CloseGap(buf, i, len);
        len := len - 1;
        assert Contents() == buf[..][..len];
      }
    }

    /** Forget all entries, keep the capacity. */
    method Reset()
      requires Valid()
      modifies this`len
      ensures Valid() && Contents() == []
    {
      len := 0;
    }
  }

  lemma IndexOfIs(es: seq<Entry>, key: string, i: nat)
    requires i <= |es| && forall j :: 0 <= j < i ==> es[j].key != key
    requires i < |es| ==> es[i].key == key
    ensures IndexOf(es, key) == i
  {
  }

  /** All pairs saved as ordinary entries, in order. */
  function SavedAll(es: seq<Entry>, names: seq<string>, values: seq<string>): seq<Entry>
    requires |names| <= |values|
    decreases |names|
  {
    if names == [] then es else SavedAll(Saved(es, names[0], values[0], false), names[1..], values[1..])
  }

  ghost predicate Mutable(es: seq<Entry>) {
    forall i :: 0 <= i < |es| ==> !es[i].immutable
  }

  /** What a save changes for lookups: its own key, unless that is immutable. */
  lemma SavedGet(es: seq<Entry>, key: string, value: string, immutable: bool, other: string)
    ensures Looked(Saved(es, key, value, immutable), other) ==
            if other == key && (immutable || Looked(es, key) == [] || !es[IndexOf(es, key)].immutable) then [value]
            else Looked(es, other)
  {
    var r := Saved(es, key, value, immutable);
    var i, j := IndexOf(es, key), IndexOf(es, other);
    IndexOfIs(r, other, if other == key || j < |es| then j else |r|);
  }

  /** After saving pairs with different names, each name looks up its own value. */
  lemma {:induction false} SavedAllGet(es: seq<Entry>, names: seq<string>, values: seq<string>, k: nat)
    requires |names| <= |values| && k < |names| && Mutable(es)
    requires forall i, j :: 0 <= i < j < |names| ==> names[i] != names[j]
    ensures Looked(SavedAll(es, names, values), names[k]) == [values[k]]
    decreases |names|
  {
    var next := Saved(es, names[0], values[0], false);
    SavedGet(es, names[0], values[0], false, names[0]);
    if k == 0 {
      SavedAllKeeps(next, names[1..], values[1..], names[0]);
    } else {
      SavedAllGet(next, names[1..], values[1..], k - 1);
    }
  }

  lemma {:induction false} SavedAllMutable(es: seq<Entry>, names: seq<string>, values: seq<string>)
    requires |names| <= |values| && Mutable(es)
    ensures Mutable(SavedAll(es, names, values))
    decreases |names|
  {
    if names != [] {
      SavedAllMutable(Saved(es, names[0], values[0], false), names[1..], values[1..]);
    }
  }

  lemma {:induction false} SavedAllKeeps(es: seq<Entry>, names: seq<string>, values: seq<string>, other: string)
    requires |names| <= |values| && other !in names
    ensures Looked(SavedAll(es, names, values), other) == Looked(es, other)
    decreases |names|
  {
    if names != [] {
      SavedGet(es, names[0], values[0], false, other);
      SavedAllKeeps(Saved(es, names[0], values[0], false), names[1..], values[1..], other);
    }
  }

  /** No key stands twice. */
  ghost predicate KeysDistinct(es: seq<Entry>) {
    forall i, j :: 0 <= i < j < |es| ==> es[i].key != es[j].key
  }

  /** Removing a key hides it when it stood only once, and leaves all other lookups. */
  lemma RemovedGet(es: seq<Entry>, key: string, other: string)
    requires KeysDistinct(es)
    ensures Looked(Removed(es, key), other) == if other == key then [] else Looked(es, other)
  {
    var r := Removed(es, key);
    var i, j := IndexOf(es, key), IndexOf(es, other);
    if i < |es| {
      IndexOfIs(r, other, if other == key then |r| else if j < i then j else j - 1);
    }
  }

  /** What changes a store. */
  datatype Change = Save(key: string, value: string, immutable: bool) | Remove(key: string) | Reset

  function Changed(es: seq<Entry>, change: Change): seq<Entry> {
    match change
    case Save(key, value, immutable) => Saved(es, key, value, immutable)
    case Remove(key) => Removed(es, key)
    case Reset => []
  }

  /** The contents after changes to a new store. */
  function After(changes: seq<Change>): seq<Entry> {
    if changes == [] then [] else Changed(After(changes[..|changes| - 1]), changes[|changes| - 1])
  }

  lemma ChangedDistinct(es: seq<Entry>, change: Change)
    requires KeysDistinct(es)
    ensures KeysDistinct(Changed(es, change))
  {
    if change.Remove? {
      var i, r := IndexOf(es, change.key), Removed(es, change.key);
      assert i < |es| ==> forall j :: 0 <= j < |r| ==> r[j] == es[if j < i then j else j + 1];
    }
  }

  /** No sequence of changes makes a key stand twice. */
  lemma {:induction false} AfterDistinct(changes: seq<Change>)
    ensures KeysDistinct(After(changes))
    decreases |changes|
  {
    if changes != [] {
      AfterDistinct(changes[..|changes| - 1]);
      ChangedDistinct(After(changes[..|changes| - 1]), changes[|changes| - 1]);
    }
  }

  /** So in any store a removed key is gone, and all others keep their values. */
  lemma AfterRemoved(changes: seq<Change>, key: string, other: string)
    ensures Looked(After(changes + [Remove(key)]), other) == if other == key then [] else Looked(After(changes), other)
  {
    assert (changes + [Remove(key)])[..|changes|] == changes;
    AfterDistinct(changes);
    RemovedGet(After(changes), key, other);
  }

  /** An entry saved as immutable keeps its value through any ordinary save, and an ordinary one does not. */
  lemma SavedTwice(es: seq<Entry>, key: string, value: string, immutable: bool, other: string)
    requires Looked(es, key) == [] || immutable
    ensures Looked(Saved(Saved(es, key, value, immutable), key, other, false), key) == [if immutable then value else other]
    ensures Looked(Saved(Saved(es, key, value, immutable), key, other, true), key) == [other]
  {
    var r := Saved(es, key, value, immutable);
    SavedGet(es, key, value, immutable, key);
    SavedGet(r, key, other, false, key);
    SavedGet(r, key, other, true, key);
    SavedFlag(es, key, value, immutable);
  }

  lemma SavedFlag(es: seq<Entry>, key: string, value: string, immutable: bool)
    requires Looked(es, key) == [] || immutable
    ensures var r := Saved(es, key, value, immutable); IndexOf(r, key) < |r| && r[IndexOf(r, key)].immutable == immutable
  {
    var r := Saved(es, key, value, immutable);
    IndexOfIs(r, key, IndexOf(es, key));
  }

  function KeysOf(es: seq<Entry>): (r: seq<string>)
    ensures |r| == |es| && forall i :: 0 <= i < |es| ==> r[i] == es[i].key
  {
    seq(|es|, i requires 0 <= i < |es| => es[i].key)
  }

  /** Keys keep the order in which they were saved first. */
  lemma SavedKeys(es: seq<Entry>, key: string, value: string, immutable: bool)
    ensures KeysOf(Saved(es, key, value, immutable)) == if key in KeysOf(es) then KeysOf(es) else KeysOf(es) + [key]
  {
    var i := IndexOf(es, key);
    if i < |es| {
      assert KeysOf(es)[i] == key;
    }
  }

  /** Removing takes the first entry of the key out; all others stay, in order. */
  lemma RemovedEntries(es: seq<Entry>, key: string)
    ensures if key in KeysOf(es) then
              exists i :: 0 <= i < |es| && es[i].key == key && key !in KeysOf(es[..i]) && Removed(es, key) == es[..i] + es[i + 1..]
            else Removed(es, key) == es
  {
    var i := IndexOf(es, key);
    if i < |es| {
      assert KeysOf(es)[i] == key;
      assert es[i].key == key && key !in KeysOf(es[..i]) && Removed(es, key) == es[..i] + es[i + 1..];
    }
  }
}
