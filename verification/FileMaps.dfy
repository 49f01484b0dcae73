/** A directory listing as a finite map: the abstract file system. */
module FileMaps {

  type Text = seq<int>

  /** One directory position: unused, or a named byte string. */
  datatype Item = Absent | File(name: Text, bytes: Text)

  ghost predicate Unique(items: seq<Item>) {
    forall j, k :: 0 <= j < k < |items| && items[j].File? && items[k].File? ==> items[j].name != items[k].name
  }

  ghost predicate At(items: seq<Item>, n: Text, k: int) {
    0 <= k < |items| && items[k].File? && items[k].name == n
  }

  /** The map from names to contents; on equal names the earliest position wins. */
  ghost function FileMap(items: seq<Item>): (f: map<Text, Text>) {
    if items == [] then map[]
    else
      var e := items[0];
      var f := FileMap(items[1..]);
      if e.File? then f[e.name := e.bytes] else f
  }

  lemma {:induction false} InMap(items: seq<Item>, n: Text)
    ensures n in FileMap(items) <==> exists k :: At(items, n, k)
  {
    if items != [] {
      var rest := items[1..];
      InMap(rest, n);
      if k :| At(items, n, k) {
        assert k > 0 ==> At(rest, n, k - 1);
      }
      if k :| At(rest, n, k) {
        assert At(items, n, k + 1);
      }
      if items[0].File? && items[0].name == n {
        assert At(items, n, 0);
      }
    }
  }

  lemma {:induction false} MapAt(items: seq<Item>, n: Text, k: int)
    requires Unique(items) && At(items, n, k)
    ensures n in FileMap(items) && FileMap(items)[n] == items[k].bytes
  {
    if k > 0 {
      assert At(items[1..], n, k - 1);
      assert Unique(items[1..]) by {
        forall i, j | 0 <= i < j < |items[1..]| && items[1..][i].File? && items[1..][j].File?
          ensures items[1..][i].name != items[1..][j].name
        {
          assert items[1..][i] == items[i + 1] && items[1..][j] == items[j + 1];
        }
      }
      MapAt(items[1..], n, k - 1);
      assert items[0].File? ==> items[0].name != items[k].name;
    }
  }

  /** Maps are equal when every name is at the same contents in both. */
  lemma Agree(a: seq<Item>, b: seq<Item>, n: Text, j: int, k: int)
    requires Unique(a) && Unique(b) && At(a, n, j) && At(b, n, k) && a[j].bytes == b[k].bytes
    ensures n in FileMap(a) && n in FileMap(b) && FileMap(a)[n] == FileMap(b)[n]
  {
    MapAt(a, n, j);
    MapAt(b, n, k);
  }

  /** Storing a file at position k, new or over the same name, is a map update. */
  lemma SetItem(items: seq<Item>, k: nat, n: Text, b: Text)
    requires k < |items| && Unique(items) && Unique(items[k := File(n, b)])
    requires items[k].File? ==> items[k].name == n
    ensures FileMap(items[k := File(n, b)]) == FileMap(items)[n := b]
  {
    var items' := items[k := File(n, b)];
    var f, f' := FileMap(items), FileMap(items');
    assert At(items', n, k);
    MapAt(items', n, k);
    forall x | x != n
      ensures x in f' <==> x in f
      ensures x in f ==> f'[x] == f[x]
    {
      OtherName(items, items', k, x);
    }
  }

  /** A name held away from position k is held alike after position k changes. */
  lemma OtherName(items: seq<Item>, items': seq<Item>, k: nat, x: Text)
    requires |items'| == |items| && k < |items| && Unique(items) && Unique(items')
    requires forall j :: 0 <= j < |items| && j != k ==> items'[j] == items[j]
    requires !At(items, x, k) && !At(items', x, k)
    ensures x in FileMap(items') <==> x in FileMap(items)
    ensures x in FileMap(items) ==> FileMap(items')[x] == FileMap(items)[x]
  {
    InMap(items, x);
    InMap(items', x);
    if j :| At(items, x, j) {
      assert At(items', x, j);
      Agree(items, items', x, j, j);
    }
    if j :| At(items', x, j) {
      assert At(items, x, j);
    }
  }

  lemma DropItem(items: seq<Item>, k: nat)
    requires k < |items| && Unique(items) && items[k].File? && Unique(items[k := Absent])
    ensures FileMap(items[k := Absent]) == FileMap(items) - {items[k].name}
  {
    var items' := items[k := Absent];
    var f, f', n := FileMap(items), FileMap(items'), items[k].name;
    InMap(items', n);
    assert forall j :: !At(items', n, j);
    forall x | x != n
      ensures x in f' <==> x in f
      ensures x in f ==> f'[x] == f[x]
    {
      OtherName(items, items', k, x);
    }
  }

  lemma RenameItem(items: seq<Item>, k: nat, n: Text)
    requires k < |items| && Unique(items) && items[k].File? && n !in FileMap(items)
    ensures Unique(items[k := File(n, items[k].bytes)])
    ensures FileMap(items[k := File(n, items[k].bytes)]) == (FileMap(items) - {items[k].name})[n := items[k].bytes]
  {
    var gone := items[k := Absent];
    InMap(items, n);
    forall j | 0 <= j < |items| && items[j].File?
      ensures items[j].name != n
    {
      assert At(items, items[j].name, j);
    }
    DropItem(items, k);
    SetItem(gone, k, n, items[k].bytes);
    assert gone[k := File(n, items[k].bytes)] == items[k := File(n, items[k].bytes)];
  }
}
