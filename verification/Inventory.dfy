/** The logical inventory of a database (`tools/backup/inventory.py`): order-free digests of the rows
    of each table, and one digest over all tables. The hash is a parameter. */
module Inventory {
  import opened Text
  import opened Sorting

  type Hash = string -> string

  // ----- one list of lines -----

  function Payload(lines: seq<string>): string { Join(Sort(lines), "\n") }

  /** `digest_lines` */
  function DigestLines(h: Hash, lines: seq<string>): string { h(Payload(lines)) }

  predicate Collide(h: Hash, x: string, y: string) { x != y && h(x) == h(y) }

  predicate OneLineEach(lines: seq<string>) {
    forall i :: 0 <= i < |lines| ==> Free(lines[i], '\n')
  }

  /** No line at all and one empty line have the same payload. */
  predicate Blank(a: seq<string>, b: seq<string>) {
    (a == [] && b == [""]) || (a == [""] && b == [])
  }

  lemma SortedOneLineEach(lines: seq<string>)
    requires OneLineEach(lines)
    ensures OneLineEach(Sort(lines)) && |Sort(lines)| == |lines|
  {
    var s := Sort(lines);
    assert |multiset(s)| == |s| && |multiset(lines)| == |lines|;
    forall i | 0 <= i < |s| ensures Free(s[i], '\n') {
      assert s[i] in multiset(s);
      assert s[i] in lines;
    }
  }

  lemma PayloadOfNothing(b: seq<string>)
    requires OneLineEach(b)
    ensures Payload(b) == Payload([]) <==> b == [] || b == [""]
  {
    assert Sort([]) == [];
    if b != [] {
      SortedOneLineEach(b);
      SplitJoin(Sort(b), '\n');
      SplitSingle("", '\n');
      SortOne("");
      if |b| == 1 {
        SortOne(b[0]);
        assert b == [b[0]];
      }
    }
  }

  lemma SortOne(x: string)
    ensures Sort([x]) == [x]
  {
    assert [x][1..] == [];
    assert Sort([]) == [];
  }

  /** The payload names the multiset of lines, but for the one blank pair. */
  lemma PayloadAlike(a: seq<string>, b: seq<string>)
    requires OneLineEach(a) && OneLineEach(b)
    ensures Payload(a) == Payload(b) <==> multiset(a) == multiset(b) || Blank(a, b)
  {
    if a == [] || b == [] {
      PayloadOfNothing(a);
      PayloadOfNothing(b);
      assert |multiset(a)| == |a| && |multiset(b)| == |b|;
    } else {
      SortedOneLineEach(a);
      SortedOneLineEach(b);
      SplitJoin(Sort(a), '\n');
      SplitJoin(Sort(b), '\n');
      SortAlike(a, b);
    }
  }

  /** Two lists have the same digest exactly when one is a permutation of the other, when they are the
      blank pair, or when the hash collides on their payloads. */
  lemma DigestStandsForMultiset(h: Hash, a: seq<string>, b: seq<string>)
    requires OneLineEach(a) && OneLineEach(b)
    ensures DigestLines(h, a) == DigestLines(h, b) <==>
            multiset(a) == multiset(b) || Blank(a, b) || Collide(h, Payload(a), Payload(b))
  {
    PayloadAlike(a, b);
  }

  // ----- the line of one table -----

  function Digit(d: nat): (c: char)
    requires d < 10
    ensures '0' <= c <= '9'
  {
    '0' + d as char
  }

  function Decimal(n: nat): (s: string)
    ensures s != [] && Free(s, ':') && Free(s, '\n')
  {
    if n < 10 then [Digit(n)] else Decimal(n / 10) + [Digit(n % 10)]
  }

  function Read(s: string): int {
    if s == [] then 0 else 10 * Read(s[..|s| - 1]) + (s[|s| - 1] as int - '0' as int)
  }

  lemma {:induction false} ReadDecimal(n: nat)
    ensures Read(Decimal(n)) == n
  {
    var s := Decimal(n);
    if n >= 10 {
      ReadDecimal(n / 10);
      assert s[..|s| - 1] == Decimal(n / 10);
    } else {
      assert s[..0] == [];
    }
  }

  datatype Item = Item(rows: nat, sha256: string)

  /** `f"{name}:{item['rows']}:{item['sha256']}"` */
  function Line(key: string, item: Item): string {
    key + ":" + Decimal(item.rows) + ":" + item.sha256
  }

  /** A digest is text without colon or newline, as hexadecimal digits are. */
  ghost predicate Hexadecimal(h: Hash) {
    forall s :: Free(h(s), ':') && Free(h(s), '\n')
  }

  /** What follows the last colon can be read back, whatever stands before it. */
  lemma LastField(a: string, x: string, b: string, y: string)
    requires Free(x, ':') && Free(y, ':')
    requires a + ":" + x == b + ":" + y
    ensures a == b && x == y
  {
    var s, t := a + ":" + x, b + ":" + y;
    assert s[|a|] == ':' && t[|b|] == ':';
    assert forall k :: |a| < k < |s| ==> s[k] == x[k - |a| - 1];
    assert forall k :: |b| < k < |t| ==> t[k] == y[k - |b| - 1];
    assert |a| == |b|;
    assert a == s[..|a|] && x == s[|a| + 1..];
    assert b == t[..|b|] && y == t[|b| + 1..];
  }

  lemma LineInjective(k: string, i: Item, l: string, j: Item)
    requires Free(i.sha256, ':') && Free(j.sha256, ':')
    ensures Line(k, i) == Line(l, j) ==> k == l && i == j
  {
    if Line(k, i) == Line(l, j) {
      LastField(k + ":" + Decimal(i.rows), i.sha256, l + ":" + Decimal(j.rows), j.sha256);
      LastField(k, Decimal(i.rows), l, Decimal(j.rows));
      ReadDecimal(i.rows);
      ReadDecimal(j.rows);
    }
  }

  lemma LineIsOneLine(k: string, i: Item)
    requires Free(k, '\n') && Free(i.sha256, '\n')
    ensures Free(Line(k, i), '\n') && Line(k, i) != []
  {
    FreeCat(k, ":", '\n');
    FreeCat(k + ":", Decimal(i.rows), '\n');
    FreeCat(k + ":" + Decimal(i.rows), ":", '\n');
    FreeCat(k + ":" + Decimal(i.rows) + ":", i.sha256, '\n');
  }

  // ----- all tables of a database -----

  datatype Table = Table(schema: string, name: string, rows: seq<string>)

  function Key(t: Table): string { t.schema + "." + t.name }

  /** The rows under each key; a key seen again is written again. */
  function Collected(fetched: seq<Table>): map<string, seq<string>> {
    if fetched == [] then map[]
    else
      var last := fetched[|fetched| - 1];
      Collected(fetched[..|fetched| - 1])[Key(last) := last.rows]
  }

  function ItemOf(h: Hash, rows: seq<string>): Item { Item(|rows|, DigestLines(h, rows)) }

  function Items(h: Hash, tables: map<string, seq<string>>): map<string, Item> {
    map k | k in tables :: ItemOf(h, tables[k])
  }

  function LinesOf(items: map<string, Item>, keys: seq<string>): (lines: seq<string>)
    requires forall k :: k in keys ==> k in items
    ensures |lines| == |keys| && forall i :: 0 <= i < |keys| ==> lines[i] == Line(keys[i], items[keys[i]])
  {
    if keys == [] then [] else [Line(keys[0], items[keys[0]])] + LinesOf(items, keys[1..])
  }

  function DatabaseSha(h: Hash, items: map<string, Item>): string {
    DigestLines(h, LinesOf(items, Listing(items.Keys)))
  }

  function PublicNames(fetched: seq<Table>): set<string> {
    set t | t in fetched && t.schema == "public" :: t.name
  }

  datatype Result =
    | MissingTables(names: seq<string>)
    | Inventory(databaseSha256: string, tableCount: nat, tables: map<string, Item>)

  function InventoryOf(h: Hash, fetched: seq<Table>, required: set<string>): Result {
    var missing := required - PublicNames(fetched);
    var items := Items(h, Collected(fetched));
    if missing != {} then MissingTables(Listing(missing))
    else Inventory(DatabaseSha(h, items), |items|, items)
  }

  /** The loop over the tables; `keys` is the order of the dictionary. */
  method Collect(h: Hash, fetched: seq<Table>) returns (tables: map<string, Item>, keys: seq<string>, publicNames: set<string>)
    ensures tables == Items(h, Collected(fetched))
    ensures multiset(keys) == multiset(tables.Keys)
    ensures publicNames == PublicNames(fetched)
  {
    hide Items, PublicNames, ItemOf, Key, Collected;
    tables, keys, publicNames := map[], [], {};
    NothingCollected(h);
    assert fetched[..0] == [];
    for i := 0 to |fetched|
      invariant tables == Items(h, Collected(fetched[..i]))
      invariant multiset(keys) == multiset(tables.Keys)
      invariant publicNames == PublicNames(fetched[..i])
    {
      var t := fetched[i];
      assert fetched[..i + 1] == fetched[..i] + [t];
      CollectOne(h, fetched[..i], t);
      Rekeyed(tables, Key(t), ItemOf(h, t.rows));
      if Key(t) !in tables {
        keys := keys + [Key(t)];
      }
      tables := tables[Key(t) := ItemOf(h, t.rows)];
      if t.schema == "public" {
        publicNames := publicNames + {t.name};
      }
    }
    assert fetched[..|fetched|] == fetched;
  }

  lemma NothingCollected(h: Hash)
    ensures Items(h, Collected([])) == map[] && PublicNames([]) == {}
  {
  }

  lemma CollectOne(h: Hash, init: seq<Table>, t: Table)
    ensures Items(h, Collected(init + [t])) == Items(h, Collected(init))[Key(t) := ItemOf(h, t.rows)]
    ensures PublicNames(init + [t]) == PublicNames(init) + if t.schema == "public" then {t.name} else {}
  {
    hide Key, ItemOf;
    assert (init + [t])[..|init|] == init;
    CollectPublic(init, t);
  }

  lemma CollectPublic(init: seq<Table>, t: Table)
    ensures PublicNames(init + [t]) == PublicNames(init) + if t.schema == "public" then {t.name} else {}
  {
    assert forall u :: u in init + [t] <==> u in init || u == t;
  }

  /** `database_inventory`, given the rows of every table: `required` is the set of critical tables for
      the core database and empty for the other one. */
  method DatabaseInventory(h: Hash, fetched: seq<Table>, required: set<string>) returns (result: Result)
    ensures result == InventoryOf(h, fetched, required)
  {
    var tables, keys, publicNames := Collect(h, fetched);
    var missing := required - publicNames;
    if missing != {} {
      return MissingTables(Listing(missing));
    }
    ListingMultiset(tables.Keys);
    assert forall k :: k in keys ==> k in multiset(keys);
    LinesPermute(tables, keys, Listing(tables.Keys));
    PayloadOfPermutation(LinesOf(tables, keys), LinesOf(tables, Listing(tables.Keys)));
    result := Inventory(DigestLines(h, LinesOf(tables, keys)), |tables|, tables);
  }

  /** A table of the public schema with this name was fetched. */
  predicate PublicTable(fetched: seq<Table>, name: string) {
    exists i :: 0 <= i < |fetched| && fetched[i].schema == "public" && fetched[i].name == name
  }

  /** The inventory is refused exactly when a required table is missing from the public schema, and then it
      names all missing ones, in order. */
  lemma MissingExactly(h: Hash, fetched: seq<Table>, required: set<string>)
    ensures var r := InventoryOf(h, fetched, required);
            && (r.MissingTables? <==> exists n :: n in required && !PublicTable(fetched, n))
            && (r.MissingTables? ==>
                  Sorted(r.names) && forall n :: n in r.names <==> n in required && !PublicTable(fetched, n))
  {
    var missing := required - PublicNames(fetched);
    ListingSorted(missing);
    forall n ensures n in PublicNames(fetched) <==> PublicTable(fetched, n) {
      PublicNamed(fetched, n);
    }
    hide PublicTable, PublicNames, DatabaseSha, Items, Sorted;
    if n :| n in required && !PublicTable(fetched, n) {
      assert n in missing;
    }
  }

  lemma PublicNamed(fetched: seq<Table>, n: string)
    ensures n in PublicNames(fetched) <==> PublicTable(fetched, n)
  {
    if i :| 0 <= i < |fetched| && fetched[i].schema == "public" && fetched[i].name == n {
      assert fetched[i] in fetched;
    }
  }

  lemma Rekeyed(m: map<string, Item>, k: string, i: Item)
    ensures multiset(m[k := i].Keys) == if k in m then multiset(m.Keys) else multiset(m.Keys) + multiset{k}
  {
    assert m[k := i].Keys == m.Keys + {k};
  }

  lemma {:induction false} ListingMultiset(s: set<string>)
    ensures multiset(Listing(s)) == multiset(s)
    decreases |s|
  {
    if s != {} {
      var x := Least(s);
      ListingMultiset(s - {x});
      assert s == (s - {x}) + {x};
    }
  }

  /** Lines of permuted keys are permuted lines. */
  lemma {:induction false} LinesPermute(items: map<string, Item>, a: seq<string>, b: seq<string>)
    requires multiset(a) == multiset(b)
    requires forall k :: k in a ==> k in items
    ensures forall k :: k in b ==> k in items
    ensures multiset(LinesOf(items, a)) == multiset(LinesOf(items, b))
  {
    assert forall k :: k in b ==> k in multiset(b);
    if a == [] {
      assert |multiset(b)| == |b|;
    } else {
      var x := a[0];
      assert x in multiset(b);
      var j :| 0 <= j < |b| && b[j] == x;
      TakeOut(a, b, j);
      LinesPermute(items, a[1..], b[..j] + b[j + 1..]);
      LinesTakeOut(items, b, j);
      LinesTakeOut(items, a, 0);
      assert a[..0] + a[1..] == a[1..];
    }
  }

  lemma TakeOut(a: seq<string>, b: seq<string>, j: nat)
    requires a != [] && j < |b| && b[j] == a[0] && multiset(a) == multiset(b)
    ensures multiset(a[1..]) == multiset(b[..j] + b[j + 1..])
  {
    assert a == [a[0]] + a[1..];
    assert b == b[..j] + [a[0]] + b[j + 1..];
    assert multiset(a[1..]) == multiset(a) - multiset{a[0]};
    assert multiset(b[..j] + b[j + 1..]) == multiset(b) - multiset{a[0]};
  }

  lemma {:induction false} LinesCat(items: map<string, Item>, a: seq<string>, b: seq<string>)
    requires forall k :: k in a || k in b ==> k in items
    ensures LinesOf(items, a + b) == LinesOf(items, a) + LinesOf(items, b)
  {
    hide Line;
    if a == [] {
      assert a + b == b;
    } else {
      assert (a + b)[1..] == a[1..] + b;
      LinesCat(items, a[1..], b);
    }
  }

  lemma LinesTakeOut(items: map<string, Item>, b: seq<string>, j: nat)
    requires j < |b| && forall k :: k in b ==> k in items
    ensures multiset(LinesOf(items, b)) == multiset{Line(b[j], items[b[j]])} + multiset(LinesOf(items, b[..j] + b[j + 1..]))
  {
    hide Line;
    var pre, post := b[..j], b[j + 1..];
    AroundIndex(b, j);
    LinesCat(items, pre, [b[j]] + post);
    LinesCat(items, pre, post);
    LinesCons(items, b[j], post);
    hide LinesOf;
    Swapped(LinesOf(items, pre), Line(b[j], items[b[j]]), LinesOf(items, post));
  }

  lemma AroundIndex(b: seq<string>, j: nat)
    requires j < |b|
    ensures b == b[..j] + ([b[j]] + b[j + 1..])
  {
  }

  lemma LinesCons(items: map<string, Item>, k: string, rest: seq<string>)
    requires k in items && forall l :: l in rest ==> l in items
    ensures LinesOf(items, [k] + rest) == [Line(k, items[k])] + LinesOf(items, rest)
  {
    hide Line;
    assert ([k] + rest)[1..] == rest;
  }

  lemma Swapped(p: seq<string>, x: string, q: seq<string>)
    ensures multiset(p + ([x] + q)) == multiset{x} + multiset(p + q)
  {
  }

  lemma PayloadOfPermutation(a: seq<string>, b: seq<string>)
    requires multiset(a) == multiset(b)
    ensures Payload(a) == Payload(b)
  {
    SortAlike(a, b);
  }

  // ----- what equal inventories mean -----

  /** The same keys, and under each key the same rows in any order. */
  ghost predicate SameRows(a: map<string, seq<string>>, b: map<string, seq<string>>) {
    a.Keys == b.Keys && forall k :: k in a ==> multiset(a[k]) == multiset(b[k])
  }

  /** Names and row texts without newline; a row is a JSON text, which escapes it. */
  ghost predicate Clean(tables: map<string, seq<string>>) {
    CleanRows(tables) && forall k :: k in tables ==> Free(k, '\n')
  }

  ghost predicate CleanRows(tables: map<string, seq<string>>) {
    forall k :: k in tables ==> OneLineEach(tables[k])
  }

  /** The hash separates the two payloads of every key and those of the two databases. */
  ghost predicate Separates(h: Hash, a: map<string, seq<string>>, b: map<string, seq<string>>) {
    && (forall k :: k in a && k in b ==> !Collide(h, Payload(a[k]), Payload(b[k])))
    && !Collide(h, TopPayload(h, a), TopPayload(h, b))
  }

  function TopPayload(h: Hash, tables: map<string, seq<string>>): string {
    var items := Items(h, tables);
    Payload(LinesOf(items, Listing(items.Keys)))
  }

  lemma LinesClean(h: Hash, tables: map<string, seq<string>>)
    requires Hexadecimal(h) && Clean(tables)
    ensures var items := Items(h, tables);
            OneLineEach(LinesOf(items, Listing(items.Keys))) &&
            forall k :: k in LinesOf(items, Listing(items.Keys)) ==> k != []
  {
    hide Collide, Payload;
    var items := Items(h, tables);
    var keys := Listing(items.Keys);
    forall i | 0 <= i < |keys| ensures Free(LinesOf(items, keys)[i], '\n') && LinesOf(items, keys)[i] != [] {
      assert keys[i] in items;
      LineIsOneLine(keys[i], items[keys[i]]);
    }
  }

  /** Every key of `a` with its item is one of `b` when the lines of `a` are lines of `b`. */
  lemma LinesGiveItems(a: map<string, Item>, b: map<string, Item>)
    requires forall k :: k in a ==> Free(a[k].sha256, ':')
    requires forall k :: k in b ==> Free(b[k].sha256, ':')
    requires multiset(LinesOf(a, Listing(a.Keys))) == multiset(LinesOf(b, Listing(b.Keys)))
    ensures forall k :: k in a ==> k in b && b[k] == a[k]
  {
    hide *;
    var ka, kb := Listing(a.Keys), Listing(b.Keys);
    var la, lb := LinesOf(a, ka), LinesOf(b, kb);
    forall k | k in a ensures k in b && b[k] == a[k] {
      assert k in ka;
      var i :| 0 <= i < |ka| && ka[i] == k;
      assert la[i] in multiset(la);
      assert la[i] in lb;
      var j :| 0 <= j < |lb| && lb[j] == la[i];
      assert kb[j] in b;
      LineInjective(k, a[k], kb[j], b[kb[j]]);
    }
  }

  lemma SameItemsSameRows(h: Hash, a: map<string, seq<string>>, b: map<string, seq<string>>)
    requires CleanRows(a) && CleanRows(b)
    requires forall k :: k in a && k in b ==> !Collide(h, Payload(a[k]), Payload(b[k]))
    ensures Items(h, a) == Items(h, b) <==> SameRows(a, b)
  {
    hide Payload, OneLineEach;
    var ia, ib := Items(h, a), Items(h, b);
    assert ia.Keys == a.Keys && ib.Keys == b.Keys;
    forall k | k in a && k in b ensures ia[k] == ib[k] <==> multiset(a[k]) == multiset(b[k]) {
      DigestStandsForMultiset(h, a[k], b[k]);
      assert |multiset(a[k])| == |a[k]| && |multiset(b[k])| == |b[k]|;
    }
    if SameRows(a, b) {
      assert forall k :: k in a ==> ia[k] == ib[k];
      assert ia == ib;
    }
    if ia == ib {
      assert forall k :: k in a ==> ia[k] == ib[k];
    }
  }

  /** The digest of a database names its tables and the multiset of rows of each: on every pair of
      databases between which the hash does not collide, equal digests mean the same tables with the
      same rows, in any order. An empty table and one blank row are told apart by the row count. */
  lemma DatabaseDigestStandsForContents(h: Hash, a: map<string, seq<string>>, b: map<string, seq<string>>)
    requires Hexadecimal(h) && Clean(a) && Clean(b) && Separates(h, a, b)
    ensures DatabaseSha(h, Items(h, a)) == DatabaseSha(h, Items(h, b)) <==> SameRows(a, b)
  {
    var ia, ib := Items(h, a), Items(h, b);
    SameItemsSameRows(h, a, b);
    if DatabaseSha(h, ia) == DatabaseSha(h, ib) {
      EqualDigestsEqualItems(h, a, b);
    }
  }

  /** `compare`: the inventories of two complete databases are equal exactly when the databases have the
      same keys with the same rows; here only the digests of single tables matter. */
  lemma CompareFindsEveryDifference(h: Hash, before: seq<Table>, after: seq<Table>, required: set<string>)
    requires required <= PublicNames(before) && required <= PublicNames(after)
    requires CleanRows(Collected(before)) && CleanRows(Collected(after))
    requires forall k :: k in Collected(before) && k in Collected(after) ==>
      !Collide(h, Payload(Collected(before)[k]), Payload(Collected(after)[k]))
    ensures InventoryOf(h, before, required) == InventoryOf(h, after, required) <==>
            SameRows(Collected(before), Collected(after))
  {
    SameItemsSameRows(h, Collected(before), Collected(after));
    hide Items, Collected, SameRows, PublicNames, DatabaseSha, CleanRows, Collide;
    assert required - PublicNames(before) == {} && required - PublicNames(after) == {};
  }

  lemma EqualDigestsEqualItems(h: Hash, a: map<string, seq<string>>, b: map<string, seq<string>>)
    requires Hexadecimal(h) && Clean(a) && Clean(b) && Separates(h, a, b)
    requires DatabaseSha(h, Items(h, a)) == DatabaseSha(h, Items(h, b))
    ensures Items(h, a) == Items(h, b)
  {
    hide *;
    var ia, ib := Items(h, a), Items(h, b);
    var la, lb := LinesOf(ia, Listing(ia.Keys)), LinesOf(ib, Listing(ib.Keys));
    LinesClean(h, a);
    LinesClean(h, b);
    TopPayloadsEqual(h, a, b);
    NotBlank(la, lb);
    ItemsHexadecimal(h, a);
    ItemsHexadecimal(h, b);
    LinesGiveItems(ia, ib);
    LinesGiveItems(ib, ia);
    assert ia.Keys == ib.Keys;
  }

  lemma ItemsHexadecimal(h: Hash, tables: map<string, seq<string>>)
    requires Hexadecimal(h)
    ensures forall k :: k in Items(h, tables) ==> Free(Items(h, tables)[k].sha256, ':')
  {
  }

  lemma TopPayloadsEqual(h: Hash, a: map<string, seq<string>>, b: map<string, seq<string>>)
    requires Separates(h, a, b) && DatabaseSha(h, Items(h, a)) == DatabaseSha(h, Items(h, b))
    ensures Payload(LinesOf(Items(h, a), Listing(Items(h, a).Keys))) == Payload(LinesOf(Items(h, b), Listing(Items(h, b).Keys)))
  {
    hide LinesOf, Payload, Items, Listing;
    assert TopPayload(h, a) == TopPayload(h, b);
  }

  lemma NotBlank(a: seq<string>, b: seq<string>)
    requires OneLineEach(a) && OneLineEach(b)
    requires forall l :: l in a || l in b ==> l != []
    requires Payload(a) == Payload(b)
    ensures multiset(a) == multiset(b)
  {
    PayloadAlike(a, b);
    assert a != [] ==> a[0] in a;
    assert b != [] ==> b[0] in b;
  }

  // ----- the name of a table -----

  /** Every fetched table is in the inventory with its own rows. */
  ghost predicate NothingHidden(fetched: seq<Table>) {
    forall i :: 0 <= i < |fetched| ==>
      Key(fetched[i]) in Collected(fetched) && Collected(fetched)[Key(fetched[i])] == fetched[i].rows
  }

  predicate KeysApart(fetched: seq<Table>) {
    forall i, j :: 0 <= i < j < |fetched| ==> Key(fetched[i]) != Key(fetched[j])
  }

  predicate HasKey(fetched: seq<Table>, k: string) {
    exists i :: 0 <= i < |fetched| && Key(fetched[i]) == k
  }

  lemma HasKeySnoc(init: seq<Table>, last: Table, k: string)
    ensures HasKey(init + [last], k) <==> HasKey(init, k) || Key(last) == k
  {
    var s := init + [last];
    assert s[|init|] == last;
    if i :| 0 <= i < |init| && Key(init[i]) == k {
      assert s[i] == init[i];
    }
    if i :| 0 <= i < |s| && Key(s[i]) == k {
      assert i < |init| ==> init[i] == s[i];
    }
  }

  lemma {:induction false} CollectedKeys(fetched: seq<Table>, k: string)
    ensures k in Collected(fetched) <==> HasKey(fetched, k)
  {
    hide Key;
    if fetched != [] {
      var init, last := fetched[..|fetched| - 1], fetched[|fetched| - 1];
      CollectedKeys(init, k);
      HasKeySnoc(init, last, k);
      assert init + [last] == fetched;
      assert Collected(fetched) == Collected(init)[Key(last) := last.rows];
    }
  }

  /** The collected rows of a key are those of the last of its tables. */
  lemma {:induction false} CollectedRows(fetched: seq<Table>, k: string) returns (i: nat)
    requires k in Collected(fetched)
    ensures i < |fetched| && Key(fetched[i]) == k && Collected(fetched)[k] == fetched[i].rows
    ensures forall j :: i < j < |fetched| ==> Key(fetched[j]) != k
  {
    hide Key;
    var init, last := fetched[..|fetched| - 1], fetched[|fetched| - 1];
    assert Collected(fetched) == Collected(init)[Key(last) := last.rows];
    if Key(last) == k {
      i := |init|;
    } else {
      i := CollectedRows(init, k);
    }
  }

  /** Tables that share a key have the same rows. */
  predicate SharedKeysAlike(fetched: seq<Table>) {
    forall i, j :: 0 <= i < j < |fetched| && Key(fetched[i]) == Key(fetched[j]) ==> fetched[i].rows == fetched[j].rows
  }

  /** On given rows nothing is hidden exactly when the tables that share a key have the same ones. */
  lemma NothingHiddenExactly(fetched: seq<Table>)
    ensures NothingHidden(fetched) <==> SharedKeysAlike(fetched)
  {
    hide Key, Collected;
    if SharedKeysAlike(fetched) {
      forall i | 0 <= i < |fetched|
        ensures Key(fetched[i]) in Collected(fetched) && Collected(fetched)[Key(fetched[i])] == fetched[i].rows
      {
        CollectedKeys(fetched, Key(fetched[i]));
        assert HasKey(fetched, Key(fetched[i]));
        var j := CollectedRows(fetched, Key(fetched[i]));
      }
    }
    if NothingHidden(fetched) {
      forall i, j | 0 <= i < j < |fetched| && Key(fetched[i]) == Key(fetched[j])
        ensures fetched[i].rows == fetched[j].rows
      {
        assert Collected(fetched)[Key(fetched[i])] == fetched[i].rows;
        assert Collected(fetched)[Key(fetched[j])] == fetched[j].rows;
      }
    }
  }

  lemma ApartSnoc(init: seq<Table>, last: Table)
    ensures KeysApart(init + [last]) <==> KeysApart(init) && !HasKey(init, Key(last))
  {
    hide Key;
    var s := init + [last];
    assert forall i :: 0 <= i < |init| ==> s[i] == init[i];
    if KeysApart(s) {
      assert forall i :: 0 <= i < |init| ==> Key(s[i]) != Key(s[|init|]);
      forall i, j | 0 <= i < j < |init| ensures Key(init[i]) != Key(init[j]) {
        assert Key(s[i]) != Key(s[j]);
      }
    }
  }

  /** The table count is the number of tables exactly when no two of them share a key. */
  lemma {:induction false} CountIsExact(fetched: seq<Table>)
    ensures |Collected(fetched)| <= |fetched|
    ensures |Collected(fetched)| == |fetched| <==> KeysApart(fetched)
  {
    hide Key, HasKey;
    if fetched != [] {
      var init, last := fetched[..|fetched| - 1], fetched[|fetched| - 1];
      hide KeysApart;
      CountIsExact(init);
      CollectedKeys(init, Key(last));
      ApartSnoc(init, last);
      assert init + [last] == fetched;
      assert Collected(fetched).Keys == Collected(init).Keys + {Key(last)};
    }
  }

  /** The same tables with any rows. */
  ghost predicate SameTables(f: seq<Table>, g: seq<Table>) {
    |f| == |g| && forall i :: 0 <= i < |f| ==> f[i].schema == g[i].schema && f[i].name == g[i].name
  }

  /** Whatever the rows, nothing is hidden, exactly when no two tables share a key. */
  lemma NothingHiddenWhateverTheRows(fetched: seq<Table>)
    ensures (forall g :: SameTables(fetched, g) ==> NothingHidden(g)) <==> KeysApart(fetched)
  {
    hide NothingHidden;
    if KeysApart(fetched) {
      forall g | SameTables(fetched, g) ensures NothingHidden(g) {
        assert forall i :: 0 <= i < |g| ==> Key(g[i]) == Key(fetched[i]);
        NothingHiddenExactly(g);
      }
    } else {
      var i, j :| 0 <= i < j < |fetched| && Key(fetched[i]) == Key(fetched[j]);
      var g := fetched[i := fetched[i].(rows := [])][j := fetched[j].(rows := [""])];
      assert Key(g[i]) == Key(g[j]) && g[i].rows != g[j].rows;
      NothingHiddenExactly(g);
      assert SameTables(fetched, g) && !NothingHidden(g);
    }
  }

  /** Schema names without a dot keep the keys of different tables apart: nothing is hidden, and the
      table count is the number of tables. */
  lemma DotFreeSchemas(fetched: seq<Table>)
    requires forall i :: 0 <= i < |fetched| ==> Free(fetched[i].schema, '.')
    requires forall i, j :: 0 <= i < j < |fetched| ==>
      (fetched[i].schema, fetched[i].name) != (fetched[j].schema, fetched[j].name)
    ensures NothingHidden(fetched) && |Collected(fetched)| == |fetched|
  {
    forall i, j | 0 <= i < j < |fetched| ensures Key(fetched[i]) != Key(fetched[j]) {
      KeyNamesTable(fetched[i], fetched[j]);
    }
    NothingHiddenExactly(fetched);
    CountIsExact(fetched);
  }

  lemma KeyNamesTable(a: Table, b: Table)
    requires Free(a.schema, '.') && Free(b.schema, '.')
    ensures Key(a) == Key(b) ==> a.schema == b.schema && a.name == b.name
  {
    FirstDot(a.schema, a.name);
    FirstDot(b.schema, b.name);
    assert a.schema == Key(a)[..|a.schema|] && a.name == Key(a)[|a.schema| + 1..];
    assert b.schema == Key(b)[..|b.schema|] && b.name == Key(b)[|b.schema| + 1..];
  }

  lemma FirstDot(schema: string, name: string)
    requires Free(schema, '.')
    ensures FirstIndex(schema + "." + name, '.') == |schema|
  {
    var s := schema + "." + name;
    assert s[..|schema|] == schema;
    FirstIndexUnique(s, '.', |schema|);
  }

  /** With a dotted schema two tables can share a key, and the rows of the first are hidden. */
  lemma DottedSchemaHidesATable(h: Hash, lost: seq<string>, kept: seq<string>, required: set<string>)
    ensures InventoryOf(h, [Table("a", "b.c", lost), Table("a.b", "c", kept)], required) ==
            InventoryOf(h, [Table("a.b", "c", kept)], required)
  {
    hide DatabaseSha;
    var one, two := Table("a", "b.c", lost), Table("a.b", "c", kept);
    assert Key(one) == "a.b.c" == Key(two);
    assert [one, two][..1] == [one];
    assert [one][..0] == [] && [two][..0] == [];
    assert Collected([]) == map[];
    assert Collected([one]) == map["a.b.c" := lost];
    assert Collected([one, two]) == map["a.b.c" := kept] == Collected([two]);
    NoPublic([one, two]);
    NoPublic([two]);
  }

  lemma NoPublic(fetched: seq<Table>)
    requires forall t :: t in fetched ==> t.schema == "a" || t.schema == "a.b"
    ensures PublicNames(fetched) == {}
  {
    assert |"public"| == 6 && |"a"| == 1 && |"a.b"| == 3;
  }
}
