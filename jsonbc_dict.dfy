/**
 * The jsonbc key dictionary: a per-backend two-way cache between key names
 * and integer ids, filled lazily from the persistent jsonbc_dict table.
 *
 * The table is modelled by the class DictTable (an append-only list of
 * distinct names whose ids are their 1-based positions, as a serial column
 * hands them out); the cache by the class KeyDictionary, whose two maps stand
 * for the idToNameHash and nameToIdHash tables.
 */
module JsonbcDict {
  import opened Wrappers

  type byte = bv8

  /** A key name as passed around by the C code: a byte pointer (maybe NULL) and a length. */
  datatype KeyName = KeyName(s: Option<seq<byte>>, len: int)

  /** The pointer covers exactly len bytes, and a NULL pointer comes with length 0. */
  predicate WellFormedName(k: KeyName) {
    if k.s.Some? then |k.s.value| == k.len else k.len == 0
  }

  function Bytes(k: KeyName): seq<byte> {
    if k.s.Some? then k.s.value else []
  }

  /** The name of a byte string read from a text datum. */
  function NameOf(b: seq<byte>): (k: KeyName)
    ensures WellFormedName(k) && k.s.Some? && Bytes(k) == b
  {
    KeyName(Some(b), |b|)
  }

  /** memcmp over two strings of equal length: the sign of the first differing (unsigned) byte. */
  function Memcmp(a: seq<byte>, b: seq<byte>): (r: int)
    requires |a| == |b|
    ensures -1 <= r <= 1
    ensures r == 0 <==> a == b
  {
    if |a| == 0 then 0
    else if a[0] != b[0] then (if a[0] < b[0] then -1 else 1)
    else
      assert a == [a[0]] + a[1..] && b == [b[0]] + b[1..];
      Memcmp(a[1..], b[1..])
  }

  /** Swapping the operands of memcmp negates its result. */
  lemma {:induction false} MemcmpAntisymmetric(a: seq<byte>, b: seq<byte>)
    requires |a| == |b|
    ensures Memcmp(a, b) == -Memcmp(b, a)
  {
    if |a| > 0 && a[0] == b[0] {
      MemcmpAntisymmetric(a[1..], b[1..]);
    }
  }

  /** name_match: the hash-table comparator; equal lengths compare bytes, otherwise the longer is greater. */
  function NameMatch(n1: KeyName, n2: KeyName): int
    requires WellFormedName(n1) && WellFormedName(n2)
  {
    if n1.len == n2.len then Memcmp(Bytes(n1), Bytes(n2))
    else if n1.len > n2.len then 1 else -1
  }

  /** name_match reports a match exactly for names with the same length and the same bytes. */
  lemma NameMatchZeroIff(n1: KeyName, n2: KeyName)
    requires WellFormedName(n1) && WellFormedName(n2)
    ensures NameMatch(n1, n2) == 0 <==> n1.len == n2.len && Bytes(n1) == Bytes(n2)
  {
  }

  /** Names of different lengths order by length. */
  lemma NameMatchByLength(n1: KeyName, n2: KeyName)
    requires WellFormedName(n1) && WellFormedName(n2) && n1.len != n2.len
    ensures NameMatch(n1, n2) == (if n1.len > n2.len then 1 else -1)
  {
  }

  /** name_match is antisymmetric, as a comparator must be. */
  lemma NameMatchAntisymmetric(n1: KeyName, n2: KeyName)
    requires WellFormedName(n1) && WellFormedName(n2)
    ensures NameMatch(n1, n2) == -NameMatch(n2, n1)
  {
    if n1.len == n2.len {
      MemcmpAntisymmetric(Bytes(n1), Bytes(n2));
    }
  }

  /** Memcmp is transitive on its strict order. */
  lemma {:induction false} MemcmpTransitive(a: seq<byte>, b: seq<byte>, c: seq<byte>)
    requires |a| == |b| == |c|
    requires Memcmp(a, b) < 0 && Memcmp(b, c) < 0
    ensures Memcmp(a, c) < 0
  {
    if a[0] == b[0] && b[0] == c[0] {
      MemcmpTransitive(a[1..], b[1..], c[1..]);
    }
  }

  /** name_match is transitive, so the hash table sees a consistent order. */
  lemma NameMatchTransitive(n1: KeyName, n2: KeyName, n3: KeyName)
    requires WellFormedName(n1) && WellFormedName(n2) && WellFormedName(n3)
    requires NameMatch(n1, n2) < 0 && NameMatch(n2, n3) < 0
    ensures NameMatch(n1, n3) < 0
  {
    if n1.len == n2.len == n3.len {
      MemcmpTransitive(Bytes(n1), Bytes(n2), Bytes(n3));
    }
  }

  /** Distinct entries of a list of names. */
  predicate Distinct(names: seq<seq<byte>>) {
    forall i, j :: 0 <= i < j < |names| ==> names[i] != names[j]
  }

  /** The id the table holds for a name: its 1-based position, if present. */
  function IdOf(names: seq<seq<byte>>, name: seq<byte>): (r: Option<int>)
    ensures r.Some? ==> 1 <= r.value <= |names| && names[r.value - 1] == name
    ensures r.None? <==> name !in names
  {
    if |names| == 0 then None
    else if names[|names| - 1] == name then Some(|names|)
    else IdOf(names[..|names| - 1], name)
  }

  /** The name the table holds for an id, if any row has it. */
  function NameAt(names: seq<seq<byte>>, id: int): (r: Option<seq<byte>>)
    ensures r.Some? <==> 1 <= id <= |names|
    ensures r.Some? ==> r.value in names
  {
    if 1 <= id <= |names| then Some(names[id - 1]) else None
  }

  /** In a table of distinct names, the two lookups are inverse to each other. */
  lemma IdNameInverse(names: seq<seq<byte>>, id: int)
    requires Distinct(names) && 1 <= id <= |names|
    ensures IdOf(names, names[id - 1]) == Some(id)
  {
  }

  /**
   * The persistent jsonbc_dict table reached through SPI: rows of distinct
   * names, the id of a row being its position (a serial column).
   */
  class DictTable {
    var names: seq<seq<byte>>

    ghost predicate Valid()
      reads this
    {
      Distinct(names)
    }

    constructor ()
      ensures Valid() && names == []
    {
      names := [];
    }

    /**
     * The upsert query of getIdByNameSlow: the id of the row holding the
     * name, inserting a new row when there is none.
     */
    method SelectOrInsert(name: seq<byte>) returns (id: int)
      requires Valid()
      modifies this
      ensures Valid()
      ensures old(name in names) ==> names == old(names) && id == IdOf(names, name).value
      ensures old(name !in names) ==> names == old(names) + [name] && id == |names|
      ensures IdOf(names, name) == Some(id) && NameAt(names, id) == Some(name)
    {
      var found := IdOf(names, name);
      if found.Some? {
        id := found.value;
      } else {
        names := names + [name];
        id := |names|;
        assert names[..|names| - 1] == old(names);
      }
      IdNameInverse(names, id);
    }

    /** The select query of getNameByIdSlow: the name of the row with that id, if any. */
    method SelectName(id: int) returns (r: Option<seq<byte>>)
      ensures r == NameAt(names, id)
      ensures r.Some? ==> r.value in names
    {
      if 1 <= id <= |names| {
        r := Some(names[id - 1]);
      } else {
        r := None;
      }
    }
  }

  /** The backend-local cache: an initialized flag and the two hash tables. */
  class KeyDictionary {
    var initialized: bool
    var idToName: map<int, seq<byte>>
    var nameToId: map<seq<byte>, int>

    /** Every cached pair agrees with the table, in both directions. */
    ghost predicate Coherent(table: DictTable)
      reads this, table
    {
      && (forall n :: n in nameToId ==> NameAt(table.names, nameToId[n]) == Some(n))
      && (forall id :: id in idToName ==> NameAt(table.names, id) == Some(idToName[id]))
    }

    /** The state of a backend before its first lookup. */
    constructor ()
      ensures !initialized && idToName == map[] && nameToId == map[]
    {
      initialized := false;
      idToName := map[];
      nameToId := map[];
    }

    /** checkInit: creates both (empty) tables on the first call only. */
    method CheckInit()
      modifies this
      ensures initialized
      ensures old(initialized) ==> idToName == old(idToName) && nameToId == old(nameToId)
      ensures !old(initialized) ==> idToName == map[] && nameToId == map[]
    {
      if initialized {
        return;
      }
      idToName := map[];
      nameToId := map[];
      initialized := true;
    }

    /** addEntry: both directions of (id, name) are entered, overwriting earlier entries for either key. */
    method AddEntry(id: int, name: seq<byte>)
      requires initialized
      modifies this
      ensures initialized
      ensures nameToId == old(nameToId)[name := id]
      ensures idToName == old(idToName)[id := name]
    {
      nameToId := nameToId[name := id];
      idToName := idToName[id := name];
    }

    /** getIdByNameSlow: asks the table (inserting if needed) and caches the answer. */
    method GetIdByNameSlow(table: DictTable, name: seq<byte>) returns (id: int)
      requires initialized && table.Valid() && Coherent(table)
      modifies this, table
      ensures initialized && table.Valid() && Coherent(table)
      ensures IdOf(table.names, name) == Some(id)
      ensures old(name in table.names) ==> table.names == old(table.names)
      ensures old(name !in table.names) ==> table.names == old(table.names) + [name]
      ensures nameToId == old(nameToId)[name := id] && idToName == old(idToName)[id := name]
    {
      id := table.SelectOrInsert(name);
      AddEntry(id, name);
      assert forall i :: i in old(idToName) ==> NameAt(old(table.names), i) == NameAt(table.names, i);
    }

    /**
     * getIdByName: the cached id when the name is cached (the table is not
     * consulted), otherwise the table's id, which is then cached.
     */
    method GetIdByName(table: DictTable, name: seq<byte>) returns (id: int)
      requires table.Valid() && (initialized ==> Coherent(table))
      modifies this, table
      ensures initialized && table.Valid() && Coherent(table)
      ensures IdOf(table.names, name) == Some(id)
      ensures old(initialized && name in nameToId) ==>
        id == old(nameToId[name]) && table.names == old(table.names)
        && nameToId == old(nameToId) && idToName == old(idToName)
      ensures name in nameToId && nameToId[name] == id
    {
      CheckInit();
      if name in nameToId {
        id := nameToId[name];
        IdNameInverse(table.names, id);
      } else {
        id := GetIdByNameSlow(table, name);
      }
    }

    /** getNameByIdSlow: the table's name for the id, cached; {NULL, 0} and nothing cached when no row has it. */
    method GetNameByIdSlow(table: DictTable, id: int) returns (name: KeyName)
      requires initialized && table.Valid() && Coherent(table)
      modifies this
      ensures initialized && Coherent(table) && WellFormedName(name)
      ensures NameAt(table.names, id).None? ==>
        name == KeyName(None, 0) && idToName == old(idToName) && nameToId == old(nameToId)
      ensures NameAt(table.names, id).Some? ==>
        name == NameOf(NameAt(table.names, id).value)
        && idToName == old(idToName)[id := Bytes(name)]
        && nameToId == old(nameToId)[Bytes(name) := id]
    {
      var row := table.SelectName(id);
      if row.None? {
        return KeyName(None, 0);
      }
      AddEntry(id, row.value);
      name := NameOf(row.value);
    }

    /** getNameById: the cached name when present, otherwise the slow path. */
    method GetNameById(table: DictTable, id: int) returns (name: KeyName)
      requires table.Valid() && (initialized ==> Coherent(table))
      modifies this
      ensures initialized && Coherent(table) && WellFormedName(name)
      ensures name.s.Some? <==> NameAt(table.names, id).Some?
      ensures name.s.Some? ==> name == NameOf(NameAt(table.names, id).value) && id in idToName
      ensures old(initialized && id in idToName) ==> idToName == old(idToName) && nameToId == old(nameToId)
      ensures name.s.None? ==> idToName == (if old(initialized) then old(idToName) else map[])
    {
      CheckInit();
      if id in idToName {
        name := NameOf(idToName[id]);
      } else {
        name := GetNameByIdSlow(table, id);
      }
    }

    /** get_id_by_name: the SQL-callable wrapper taking the name from a text argument. */
    method GetIdByNameSql(table: DictTable, text: seq<byte>) returns (id: int)
      requires table.Valid() && (initialized ==> Coherent(table))
      modifies this, table
      ensures initialized && table.Valid() && Coherent(table)
      ensures NameAt(table.names, id) == Some(text)
    {
      id := GetIdByName(table, text);
    }

    /** get_name_by_id: SQL NULL exactly when the looked-up name has a NULL pointer, i.e. no row has the id. */
    method GetNameByIdSql(table: DictTable, id: int) returns (r: Option<seq<byte>>)
      requires table.Valid() && (initialized ==> Coherent(table))
      modifies this
      ensures initialized && Coherent(table)
      ensures r == NameAt(table.names, id)
    {
      var name := GetNameById(table, id);
      if name.s.Some? {
        assert name.s.value[..name.len] == name.s.value;
        r := Some(name.s.value[..name.len]);
      } else {
        r := None;
      }
    }
  }

  /** After getIdByName(name) the next lookup of the same name hits the cache and gives the same id. */
  method LookupTwice(dict: KeyDictionary, table: DictTable, name: seq<byte>)
      returns (first: int, second: int)
    requires table.Valid() && (dict.initialized ==> dict.Coherent(table))
    modifies dict, table
    ensures first == second
  {
    first := dict.GetIdByName(table, name);
    var names := table.names;
    second := dict.GetIdByName(table, name);
    assert table.names == names;
  }
}
