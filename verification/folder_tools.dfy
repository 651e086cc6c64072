/** The maintenance tools of folder_tools.py over an abstract listing
    database: dropping the keys of a stored record that are not wanted,
    the new name `rename_folders` gives a directory, and the bottom-up
    removal of empty directories over a directory tree.
 */
module FolderTools {
  import opened Results
  import opened Text
  import opened Json

  /** The keys a stored record keeps. */
  const WantedData: seq<string> := [
    "url", "address", "postal_code", "type", "price", "size",
    "basement_size", "rooms", "year_built", "year_rebuilt",
    "energy_label", "postal_avg_sqm_price"
  ]

  const WantedKeys: set<string> := set k | k in WantedData

  /** `d.pop(key)` on a key of `d`: its entry is taken out, the others keep
      their order. */
  function Pop(r: Record, key: string): (r': Record)
  {
    if |r| == 0 then []
    else if r[0].0 == key then r[1..]
    else [r[0]] + Pop(r[1..], key)
  }

  /** Popping a key that the front part does not hold leaves the front alone. */
  lemma {:induction false} PopBehind(a: Record, b: Record, key: string)
    requires forall i :: 0 <= i < |a| ==> a[i].0 != key
    ensures Pop(a + b, key) == a + Pop(b, key)
  {
    if |a| > 0 {
      assert a[0].0 != key;
      PopBehind(a[1..], b, key);
      assert (a + b)[0] == a[0];
      assert Pop(a + b, key) == [a[0]] + Pop((a + b)[1..], key);
      assert (a + b)[1..] == a[1..] + b;
      assert a + Pop(b, key) == [a[0]] + (a[1..] + Pop(b, key));
    } else {
      assert a + b == b;
    }
  }

  /** Filtering a record extended by one entry. */
  lemma {:induction false} RetainSnoc(a: Record, e: Entry, keep: set<string>)
    ensures Retain(a + [e], keep) == Retain(a, keep) + (if e.0 in keep then [e] else [])
  {
    if |a| > 0 {
      RetainSnoc(a[1..], e, keep);
      assert (a + [e])[1..] == a[1..] + [e];
    } else {
      assert a + [e] == [e];
    }
  }

  /** One turn of the filter loop: the entry at `i` is kept when wanted and
      popped otherwise. */
  lemma FilterStep(data: Record, i: nat, r: Record, keep: set<string>)
    requires i < |data|
    requires r == Retain(data[..i], keep) + data[i..]
    ensures (if data[i].0 in keep then r else Pop(r, data[i].0))
            == Retain(data[..i + 1], keep) + data[i + 1..]
  {
    RetainSnoc(data[..i], data[i], keep);
    assert data[..i + 1] == data[..i] + [data[i]];
    assert data[i..] == [data[i]] + data[i + 1..];
    if data[i].0 !in keep {
      PopBehind(Retain(data[..i], keep), data[i..], data[i].0);
    }
  }

  /** The filter loop of `remove_unwanted_data`: the keys are listed first,
      and every one that is not wanted is popped. The result is the record
      restricted to the wanted keys, in the original order. */
  method RemoveUnwanted(data: Record) returns (r: Record)
    ensures r == Retain(data, WantedKeys)
    ensures forall i :: 0 <= i < |r| ==> r[i].0 in WantedData
  {
    var keys := Keys(data);
    r := data;
    var i := 0;
    while i < |keys|
      invariant 0 <= i <= |keys|
      invariant r == Retain(data[..i], WantedKeys) + data[i..]
    {
      var key := keys[i];
      FilterStep(data, i, r, WantedKeys);
      if key !in WantedData {
        r := Pop(r, key);
      }
      i := i + 1;
    }
    assert data[..|data|] == data;
  }

  /** The look-up of a key through the first entry of a record. */
  lemma GetCons(e: Entry, t: Record, k: string)
    ensures Get([e] + t, k) == if e.0 == k then Some(e.1) else Get(t, k)
  {
    assert ([e] + t)[1..] == t;
  }

  /** A wanted key reads the same value after the filter; any other key is
      gone. */
  lemma {:induction false} RetainGet(r: Record, keep: set<string>, k: string)
    ensures Get(Retain(r, keep), k) == if k in keep then Get(r, k) else None
  {
    if |r| > 0 {
      RetainGet(r[1..], keep, k);
      GetCons(r[0], r[1..], k);
      assert r == [r[0]] + r[1..];
      if r[0].0 in keep {
        GetCons(r[0], Retain(r[1..], keep), k);
      }
    }
  }

  /** Filtering twice is filtering once. */
  lemma {:induction false} RetainIdempotent(r: Record, keep: set<string>)
    ensures Retain(Retain(r, keep), keep) == Retain(r, keep)
  {
    if |r| > 0 {
      RetainIdempotent(r[1..], keep);
      if r[0].0 in keep {
        assert ([r[0]] + Retain(r[1..], keep))[1..] == Retain(r[1..], keep);
      }
    }
  }

  /** Running the tool on its own output changes nothing. */
  method RemoveUnwantedTwice(data: Record) returns (once: Record, twice: Record)
    ensures twice == once
    ensures forall k :: k in WantedKeys ==> Get(once, k) == Get(data, k)
    ensures forall k :: k !in WantedKeys ==> Get(once, k).None?
  {
    once := RemoveUnwanted(data);
    twice := RemoveUnwanted(once);
    RetainIdempotent(data, WantedKeys);
    forall k ensures Get(once, k) == if k in WantedKeys then Get(data, k) else None {
      RetainGet(data, WantedKeys, k);
    }
  }

  /** The name `rename_folders` gives a directory: a name with a space has
      every space replaced by an underscore; other names are left alone. */
  function RenamedFolder(name: string): (r: string)
    ensures |r| == |name|
    ensures forall i :: 0 <= i < |name| ==> r[i] == (if name[i] == ' ' then '_' else name[i])
    ensures ' ' !in r
    ensures ' ' !in name ==> r == name
  {
    if ' ' in name then
      ReplaceChar(name, ' ', '_');
      ReplaceAll(name, " ", "_")
    else name
  }

  /** Renaming an already renamed folder keeps its name. */
  lemma RenameIdempotent(name: string)
    ensures RenamedFolder(RenamedFolder(name)) == RenamedFolder(name)
  {
  }

  /** A directory tree: a file, or a directory of named entries. */
  datatype Node = File | Dir(entries: seq<DirEntry>)
  datatype DirEntry = DirEntry(name: string, node: Node)

  /** The tree holds a file somewhere. */
  predicate HasFile(n: Node) {
    match n
    case File => true
    case Dir(es) => exists i :: 0 <= i < |es| && HasFile(es[i].node)
  }

  /** An entry that `os.listdir` reports as empty: a directory with no
      entries. */
  predicate EmptyDir(e: DirEntry) {
    e.node == Dir([])
  }

  /** The entries that are not empty directories, in order. */
  function DropEmpty(es: seq<DirEntry>): (r: seq<DirEntry>)
    ensures forall e :: e in r <==> e in es && !EmptyDir(e)
  {
    if |es| == 0 then []
    else if EmptyDir(es[0]) then DropEmpty(es[1..])
    else [es[0]] + DropEmpty(es[1..])
  }

  /** `remove_empty_folders` below a directory. `os.walk` with
      `topdown=False` reaches every directory after its subdirectories, and
      each directory removes those of its subdirectories that are empty at
      that moment. So a subdirectory is first pruned itself and then removed
      when nothing is left in it. The directory given is never removed. */
  function Prune(n: Node): Node
  {
    match n
    case File => File
    case Dir(es) =>
      Dir(DropEmpty(seq(|es|, i requires 0 <= i < |es| => DirEntry(es[i].name, Prune(es[i].node)))))
  }

  /** The children of a directory after pruning them, before any removal. */
  function PrunedChildren(es: seq<DirEntry>): (r: seq<DirEntry>)
    ensures |r| == |es|
    ensures forall i :: 0 <= i < |es| ==> r[i] == DirEntry(es[i].name, Prune(es[i].node))
  {
    seq(|es|, i requires 0 <= i < |es| => DirEntry(es[i].name, Prune(es[i].node)))
  }

  lemma PruneDir(es: seq<DirEntry>)
    ensures Prune(Dir(es)) == Dir(DropEmpty(PrunedChildren(es)))
  {
  }

  /** Pruning deletes directories only: a tree holds a file exactly when its
      pruned form does. */
  lemma {:induction false} PruneKeepsFiles(n: Node)
    ensures HasFile(Prune(n)) == HasFile(n)
  {
    match n
    case File =>
    case Dir(es) =>
      var ps := PrunedChildren(es);
      PruneDir(es);
      forall i | 0 <= i < |es| ensures HasFile(ps[i].node) == HasFile(es[i].node) {
        PruneKeepsFiles(es[i].node);
      }
      SameFiles(ps, es);
      DropEmptyKeepsFiles(ps);
  }

  /** Two directories whose entries hold files at the same positions. */
  lemma SameFiles(ps: seq<DirEntry>, es: seq<DirEntry>)
    requires |ps| == |es|
    requires forall i :: 0 <= i < |es| ==> HasFile(ps[i].node) == HasFile(es[i].node)
    ensures HasFile(Dir(ps)) == HasFile(Dir(es))
  {
    if HasFile(Dir(es)) {
      var i :| 0 <= i < |es| && HasFile(es[i].node);
      assert HasFile(ps[i].node);
    }
    if HasFile(Dir(ps)) {
      var i :| 0 <= i < |ps| && HasFile(ps[i].node);
      assert HasFile(es[i].node);
    }
  }

  /** An empty directory holds no file, so dropping one loses none. */
  lemma DropEmptyKeepsFiles(ps: seq<DirEntry>)
    ensures HasFile(Dir(DropEmpty(ps))) == HasFile(Dir(ps))
  {
    var kept := DropEmpty(ps);
    if HasFile(Dir(ps)) {
      var i :| 0 <= i < |ps| && HasFile(ps[i].node);
      assert !EmptyDir(ps[i]);
      assert ps[i] in kept;
      var j :| 0 <= j < |kept| && kept[j] == ps[i];
      assert HasFile(kept[j].node);
    }
    if HasFile(Dir(kept)) {
      var j :| 0 <= j < |kept| && HasFile(kept[j].node);
      assert kept[j] in ps;
      var i :| 0 <= i < |ps| && ps[i] == kept[j];
      assert HasFile(ps[i].node);
    }
  }

  /** A directory is left without entries exactly when there is no file
      anywhere below it: a chain of nested empty directories disappears
      entirely, while the directory itself stays. */
  lemma {:induction false} PruneEmptiesIff(es: seq<DirEntry>)
    ensures Prune(Dir(es)) == Dir([]) <==> !HasFile(Dir(es))
  {
    var ps := PrunedChildren(es);
    var kept := DropEmpty(ps);
    PruneDir(es);
    PruneKeepsFiles(Dir(es));
    if kept != [] {
      var e := kept[0];
      assert e in ps && !EmptyDir(e);
      var i :| 0 <= i < |ps| && ps[i] == e;
      match es[i].node
      case File =>
        assert HasFile(Dir(es));
      case Dir(sub) =>
        PruneDir(sub);
        PruneEmptiesIff(sub);
        assert HasFile(es[i].node);
    }
  }

  /** Every directory strictly below the top has at least one entry. */
  predicate NoEmptyBelow(n: Node) {
    match n
    case File => true
    case Dir(es) => forall i :: 0 <= i < |es| ==> !EmptyDir(es[i]) && NoEmptyBelow(es[i].node)
  }

  /** After pruning, no empty directory is left below the top. */
  lemma {:induction false} PruneLeavesNoEmpty(n: Node)
    ensures NoEmptyBelow(Prune(n))
  {
    match n
    case File =>
    case Dir(es) =>
      var ps := PrunedChildren(es);
      var kept := DropEmpty(ps);
      PruneDir(es);
      forall j | 0 <= j < |kept| ensures !EmptyDir(kept[j]) && NoEmptyBelow(kept[j].node) {
        assert kept[j] in ps;
        var i :| 0 <= i < |ps| && ps[i] == kept[j];
        PruneLeavesNoEmpty(es[i].node);
      }
  }

  /** A tree without empty directories below the top is left as it is. */
  lemma {:induction false} PruneSettled(n: Node)
    requires NoEmptyBelow(n)
    ensures Prune(n) == n
  {
    match n
    case File =>
    case Dir(es) =>
      var ps := PrunedChildren(es);
      PruneDir(es);
      forall i | 0 <= i < |es| ensures ps[i] == es[i] {
        PruneSettled(es[i].node);
      }
      assert ps == es;
      DropNothing(es);
  }

  lemma {:induction false} DropNothing(es: seq<DirEntry>)
    requires forall i :: 0 <= i < |es| ==> !EmptyDir(es[i])
    ensures DropEmpty(es) == es
  {
    if |es| > 0 {
      DropNothing(es[1..]);
      assert [es[0]] + es[1..] == es;
    }
  }

  /** Removing empty folders a second time removes nothing. */
  lemma PruneIdempotent(n: Node)
    ensures Prune(Prune(n)) == Prune(n)
  {
    PruneLeavesNoEmpty(n);
    PruneSettled(Prune(n));
  }
}
