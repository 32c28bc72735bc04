/**
 * Scan-key preparation of an SP-GiST index scan (spgPrepareScanKeys in
 * spgscan.c): the caller's keys are split into the IS NULL / IS NOT NULL
 * tests, which become the two search flags, and the ordinary strict
 * operators, which are passed on to the opclass consistent functions.
 */
module SpgKeys {

  /** sk_flags bits (skey.h). */
  const SK_ISNULL: bv32 := 0x0001
  const SK_SEARCHNULL: bv32 := 0x0040
  const SK_SEARCHNOTNULL: bv32 := 0x0080

  /** A scan key: its flags, the operator strategy and the comparison argument. */
  datatype ScanKey = ScanKey(flags: bv32, strategy: nat, argument: int)

  /** How spgPrepareScanKeys reads a key; the flags are tested in this order. */
  datatype KeyClass = IsNullTest | NotNullTest | NullArgument | Ordinary

  function Classify(k: ScanKey): (c: KeyClass)
    ensures c == IsNullTest <==> k.flags & SK_SEARCHNULL != 0
    ensures c == NotNullTest <==> k.flags & SK_SEARCHNULL == 0 && k.flags & SK_SEARCHNOTNULL != 0
    ensures c == NullArgument <==> k.flags & (SK_SEARCHNULL | SK_SEARCHNOTNULL) == 0 && k.flags & SK_ISNULL != 0
  {
    if k.flags & SK_SEARCHNULL != 0 then IsNullTest
    else if k.flags & SK_SEARCHNOTNULL != 0 then NotNullTest
    else if k.flags & SK_ISNULL != 0 then NullArgument
    else Ordinary
  }

  predicate HasClass(keys: seq<ScanKey>, c: KeyClass) {
    exists i :: 0 <= i < |keys| && Classify(keys[i]) == c
  }

  /** The ordinary keys, in their order. */
  function OrdinaryKeys(keys: seq<ScanKey>): (r: seq<ScanKey>)
    ensures |r| <= |keys|
    ensures forall i :: 0 <= i < |r| ==> Classify(r[i]) == Ordinary
    ensures r == [] <==> !HasClass(keys, Ordinary)
  {
    if keys == [] then []
    else
      var rest := OrdinaryKeys(keys[..|keys| - 1]);
      assert forall i :: 0 <= i < |keys| - 1 ==> keys[..|keys| - 1][i] == keys[i];
      if Classify(keys[|keys| - 1]) == Ordinary then rest + [keys[|keys| - 1]] else rest
  }

  /** The three fields spgPrepareScanKeys sets: searchNulls, searchNonNulls and the keys kept. */
  datatype KeyPlan = KeyPlan(searchNulls: bool, searchNonNulls: bool, keys: seq<ScanKey>)

  /** The scan condition cannot hold: a strict operator with a null argument, or IS NULL with anything that needs a value. */
  predicate Unsatisfiable(keys: seq<ScanKey>) {
    HasClass(keys, NullArgument)
    || (HasClass(keys, IsNullTest) && (HasClass(keys, NotNullTest) || HasClass(keys, Ordinary)))
  }

  /** What the scan keys ask for, stated over the whole key list. */
  function Plan(keys: seq<ScanKey>): KeyPlan {
    if keys == [] then KeyPlan(true, true, [])
    else if Unsatisfiable(keys) then KeyPlan(false, false, [])
    else KeyPlan(HasClass(keys, IsNullTest), HasClass(keys, NotNullTest) || HasClass(keys, Ordinary), OrdinaryKeys(keys))
  }

  /** No keys: the whole index, nulls included, with no key left for the opclass. */
  lemma NoKeysScansAll()
    ensures Plan([]) == KeyPlan(true, true, [])
  {
  }

  /**
   * The scan finds nothing (both search flags off) exactly when keys were
   * given and they cannot be satisfied; an empty scan keeps no keys.
   */
  lemma EmptyScanIff(keys: seq<ScanKey>)
    ensures (!Plan(keys).searchNulls && !Plan(keys).searchNonNulls) <==> (keys != [] && Unsatisfiable(keys))
    ensures !Plan(keys).searchNulls && !Plan(keys).searchNonNulls ==> Plan(keys).keys == []
  {
    if keys != [] && !Unsatisfiable(keys) {
      var c := Classify(keys[0]);
      assert c != NullArgument;
      if c == IsNullTest {
        assert Plan(keys).searchNulls;
      } else {
        assert Plan(keys).searchNonNulls;
      }
    }
  }

  /** A satisfiable key list keeps its ordinary keys and searches non-null entries iff one of them needs a value. */
  lemma SatisfiablePlan(keys: seq<ScanKey>)
    requires keys != [] && !Unsatisfiable(keys)
    ensures Plan(keys).keys == OrdinaryKeys(keys)
    ensures Plan(keys).searchNulls <==> HasClass(keys, IsNullTest)
    ensures Plan(keys).searchNonNulls <==> HasClass(keys, NotNullTest) || HasClass(keys, Ordinary)
    ensures !(Plan(keys).searchNulls && Plan(keys).searchNonNulls)
  {
  }

  /** The class of a prefix, one key further. */
  lemma HasClassSnoc(keys: seq<ScanKey>, i: nat, c: KeyClass)
    requires i < |keys|
    ensures HasClass(keys[..i + 1], c) <==> HasClass(keys[..i], c) || Classify(keys[i]) == c
  {
    var p := keys[..i + 1];
    assert p[i] == keys[i];
    assert forall j :: 0 <= j < i ==> p[j] == keys[..i][j];
    if HasClass(p, c) && Classify(keys[i]) != c {
      var j :| 0 <= j < |p| && Classify(p[j]) == c;
      assert j < i && keys[..i][j] == p[j];
    }
  }

  /** One more key of the prefix: what each class test and the ordinary keys become. */
  lemma PrefixStep(keys: seq<ScanKey>, i: nat)
    requires i < |keys|
    ensures forall c :: HasClass(keys[..i + 1], c) <==> HasClass(keys[..i], c) || Classify(keys[i]) == c
    ensures OrdinaryKeys(keys[..i + 1])
              == OrdinaryKeys(keys[..i]) + (if Classify(keys[i]) == Ordinary then [keys[i]] else [])
  {
    forall c { HasClassSnoc(keys, i, c); }
    assert keys[..i + 1][..i] == keys[..i];
  }

  /**
   * The scan-key part of SpGistScanOpaqueData: keyData was allocated for
   * as many keys as the scan was opened with.
   */
  class KeyState {
    var searchNulls: bool
    var searchNonNulls: bool
    var numberOfKeys: nat
    const keyData: array<ScanKey>

    constructor (keysz: nat)
      ensures keyData.Length == keysz && fresh(keyData)
      ensures numberOfKeys == 0 && !searchNulls && !searchNonNulls
    {
      keyData := new ScanKey[keysz](_ => ScanKey(0, 0, 0));
      numberOfKeys := 0;
      searchNulls := false;
      searchNonNulls := false;
    }

    /** The keys passed on to the opclass. */
    function Kept(): seq<ScanKey>
      reads this, keyData
      requires numberOfKeys <= keyData.Length
    {
      keyData[..numberOfKeys]
    }

    /** spgPrepareScanKeys: examine the keys, then emit the flags and the kept keys. */
    method PrepareScanKeys(keys: seq<ScanKey>)
      requires |keys| <= keyData.Length
      modifies this, keyData
      ensures numberOfKeys <= keyData.Length
      ensures KeyPlan(searchNulls, searchNonNulls, Kept()) == Plan(keys)
    {
      if |keys| == 0 {
        searchNulls := true;
        searchNonNulls := true;
        numberOfKeys := 0;
        return;
      }
      var qualOk, haveIsNull, haveNotNull, nkeys := ExamineKeys(keys);
      if haveIsNull && haveNotNull {
        qualOk := false;
      }
      if qualOk {
        searchNulls := haveIsNull;
        searchNonNulls := haveNotNull;
        numberOfKeys := nkeys;
      } else {
        searchNulls := false;
        searchNonNulls := false;
        numberOfKeys := 0;
      }
    }

    /**
     * The loop of spgPrepareScanKeys: ordinary keys are copied to keyData
     * in order; a strict operator with a null argument stops the pass.
     */
    method ExamineKeys(keys: seq<ScanKey>) returns (qualOk: bool, haveIsNull: bool, haveNotNull: bool, nkeys: nat)
      requires |keys| <= keyData.Length
      modifies keyData
      ensures nkeys <= keyData.Length
      ensures qualOk <==> !HasClass(keys, NullArgument)
      ensures qualOk ==> haveIsNull == HasClass(keys, IsNullTest)
      ensures qualOk ==> haveNotNull == (HasClass(keys, NotNullTest) || HasClass(keys, Ordinary))
      ensures qualOk ==> keyData[..nkeys] == OrdinaryKeys(keys)
    {
      qualOk := true;
      haveIsNull := false;
      haveNotNull := false;
      nkeys := 0;
      var i := 0;
      while i < |keys|
        invariant 0 <= i <= |keys| && nkeys <= i
        invariant !HasClass(keys[..i], NullArgument)
        invariant haveIsNull == HasClass(keys[..i], IsNullTest)
        invariant haveNotNull == (HasClass(keys[..i], NotNullTest) || HasClass(keys[..i], Ordinary))
        invariant keyData[..nkeys] == OrdinaryKeys(keys[..i])
      {
        var skey := keys[i];
        PrefixStep(keys, i);
        if skey.flags & SK_SEARCHNULL != 0 {
          haveIsNull := true;
        } else if skey.flags & SK_SEARCHNOTNULL != 0 {
          haveNotNull := true;
        } else if skey.flags & SK_ISNULL != 0 {
          qualOk := false;
          assert Classify(keys[i]) == NullArgument;
          return;
        } else {
          keyData[nkeys] := skey;
          assert keyData[..nkeys + 1] == keyData[..nkeys] + [skey];
          nkeys := nkeys + 1;
          haveNotNull := true;
        }
        i := i + 1;
      }
      assert keys[..i] == keys;
    }
  }
}
