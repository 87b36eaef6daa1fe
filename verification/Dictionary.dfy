/** The hashed string dictionary of ini/dictionary.c. */
module Dictionary {
  import opened Bytes

  const DICTMINSZ: nat := 128

  // ---- dictionary_hash ----

  /** One turn of the loop of dictionary_hash, for an unsigned char. */
  function Mix(hash: bv32, c: byte): bv32 {
    var h1 := hash + (c as bv32);
    var h2 := h1 + (h1 << 10);
    h2 ^ (h2 >> 6)
  }

  function MixAll(s: Text): bv32 {
    if s == [] then 0 else Mix(MixAll(s[..|s| - 1]), s[|s| - 1])
  }

  /** The three lines behind the loop. */
  function Finish(h1: bv32): bv32 {
    var h2 := h1 + (h1 << 3);
    var h3 := h2 ^ (h2 >> 11);
    h3 + (h3 << 15)
  }

  function HashOf(s: Text): bv32 {
    Finish(MixAll(s))
  }

  method DictionaryHash(key: Text) returns (hash: bv32)
    ensures hash == HashOf(key)
  {
    hide Mix, Finish;
    hash := 0;
    var i := 0;
    while i < |key|
      invariant i <= |key| && hash == MixAll(key[..i])
    {
      assert key[..i + 1][..i] == key[..i];
      hash := Mix(hash, key[i]);
      i := i + 1;
    }
    assert key[..i] == key;
    hash := Finish(hash);
  }

  /** The keys "a" and "abc" under this hash. */
  lemma HashExamples()
    ensures HashOf([0x61]) == 0xCA2E_9442
    ensures HashOf([0x61, 0x62, 0x63]) == 0xED13_1F5B
  {
    FirstMix();
    MoreMix();
    hide Mix, Finish;
    var s: Text := [0x61, 0x62, 0x63];
    MixedTo(s, 0);
    MixedTo(s, 1);
    MixedTo(s, 2);
    assert s[..3] == s && s[..1] == [0x61] && s[..0] == [];
  }

  lemma MixedTo(s: Text, i: nat)
    requires i < |s|
    ensures MixAll(s[..i + 1]) == Mix(MixAll(s[..i]), s[i])
  {
    assert s[..i + 1][..i] == s[..i];
  }

  lemma FirstMix()
    ensures Mix(0, 0x61) == 0x0001_8270 && Finish(0x0001_8270) == 0xCA2E_9442
  {
  }

  lemma MoreMix()
    ensures Mix(0x0001_8270, 0x62) == 0x0614_F9F9 && Mix(0x0614_F9F9, 0x63) == 0x5899_93F5
    ensures Finish(0x5899_93F5) == 0xED13_1F5B
  {
  }

  // ---- Slots ----

  /** How many slots are taken. */
  function Count(keys: seq<Option<Text>>): (n: nat)
    ensures n <= |keys| && (n == |keys| <==> None !in keys)
  {
    if keys == [] then 0 else Count(keys[..|keys| - 1]) + Bit(keys[|keys| - 1])
  }

  function Bit(k: Option<Text>): nat {
    if k.Some? then 1 else 0
  }

  lemma {:induction false} CountSet(keys: seq<Option<Text>>, i: nat, k: Option<Text>)
    requires i < |keys|
    ensures Count(keys[i := k]) + Bit(keys[i]) == Count(keys) + Bit(k)
  {
    hide Bit;
    var n := |keys| - 1;
    var keys' := keys[i := k];
    if i < n {
      CountSet(keys[..n], i, k);
      assert keys'[..n] == keys[..n][i := k];
    } else {
      assert keys'[..n] == keys[..n];
    }
  }

  lemma {:induction false} CountEmpty(keys: seq<Option<Text>>, tail: seq<Option<Text>>)
    requires forall i | 0 <= i < |tail| :: tail[i].None?
    ensures Count(keys + tail) == Count(keys)
  {
    if tail == [] {
      assert keys + tail == keys;
    } else {
      var all := keys + tail;
      assert all[..|all| - 1] == keys + tail[..|tail| - 1];
      CountEmpty(keys, tail[..|tail| - 1]);
    }
  }

  /** Every taken slot holds the hash of its key. */
  ghost predicate Hashed(keys: seq<Option<Text>>, hash: seq<bv32>) {
    |hash| == |keys| && forall i | 0 <= i < |keys| && keys[i].Some? :: hash[i] == HashOf(keys[i].value)
  }

  /** The slots hold the keys of m, each once and with its value; a section has the value NULL. */
  ghost predicate Represents(keys: seq<Option<Text>>, vals: seq<Option<Text>>, m: map<Text, Option<Text>>) {
    && |keys| == |vals|
    && (forall i, j | 0 <= i < j < |keys| && keys[i].Some? :: keys[i] != keys[j])
    && (forall i | 0 <= i < |keys| && keys[i].Some? :: keys[i].value in m && m[keys[i].value] == vals[i])
    && (forall k | k in m :: Some(k) in keys)
  }

  lemma RepresentsSet(keys: seq<Option<Text>>, vals: seq<Option<Text>>, m: map<Text, Option<Text>>,
                     i: nat, k: Text, v: Option<Text>)
    requires Represents(keys, vals, m) && i < |keys|
    requires keys[i] == Some(k) || (keys[i].None? && k !in m)
    ensures Represents(keys[i := Some(k)], vals[i := v], m[k := v])
  {
    var keys', vals', m' := keys[i := Some(k)], vals[i := v], m[k := v];
    forall x | x in m'
      ensures Some(x) in keys'
    {
      if x == k {
        assert keys'[i] == Some(x);
      } else {
        var j :| 0 <= j < |keys| && keys[j] == Some(x);
        assert keys'[j] == Some(x);
      }
    }
  }

  lemma RepresentsUnset(keys: seq<Option<Text>>, vals: seq<Option<Text>>, m: map<Text, Option<Text>>, i: nat)
    requires Represents(keys, vals, m) && i < |keys| && keys[i].Some?
    ensures Represents(keys[i := None], vals[i := None], m - {keys[i].value})
  {
    var keys', k := keys[i := None], keys[i].value;
    forall x | x in m - {k}
      ensures Some(x) in keys'
    {
      var j :| 0 <= j < |keys| && keys[j] == Some(x);
      assert keys'[j] == Some(x);
    }
  }

  lemma RepresentsGrow(keys: seq<Option<Text>>, vals: seq<Option<Text>>, m: map<Text, Option<Text>>,
                       tail: seq<Option<Text>>, more: seq<Option<Text>>)
    requires Represents(keys, vals, m) && |tail| == |more| && forall i | 0 <= i < |tail| :: tail[i].None?
    ensures Represents(keys + tail, vals + more, m)
  {
  }

  // ---- The object ----

  /** mem_double: the old contents in front, and an empty half behind. */
  method MemDouble<T>(a: array<T>, empty: T) returns (b: array<T>)
    ensures fresh(b) && b.Length == 2 * a.Length
    ensures b[..a.Length] == a[..] && forall i | a.Length <= i < b.Length :: b[i] == empty
    ensures b[..] == a[..] + b[a.Length..]
  {
    b := new T[2 * a.Length](_ => empty);
    forall i | 0 <= i < a.Length {
      b[i] := a[i];
    }
  }

  class Dict {
    var n: nat
    var size: nat
    var key: array<Option<Text>>
    var val: array<Option<Text>>
    var hash: array<bv32>
    ghost var contents: map<Text, Option<Text>>

    ghost predicate Apart()
      reads this
    {
      key != val && (hash as object) != key && (hash as object) != val
    }

    ghost predicate Valid()
      reads this, key, val, hash
    {
      && key.Length == val.Length == hash.Length == size && DICTMINSZ <= size && Apart()
      && n == Count(key[..]) && Hashed(key[..], hash[..]) && Represents(key[..], val[..], contents)
    }

    ghost function Arrays(): set<object>
      reads this
    {
      {key, val, hash}
    }

    /** dictionary_new. */
    constructor (size: nat)
      ensures Valid() && contents == map[] && this.size == if size < 128 then 128 else size
      ensures fresh(key) && fresh(val) && fresh(hash)
    {
      var m := if size < DICTMINSZ then DICTMINSZ else size;
      this.size := m;
      n := 0;
      key := new Option<Text>[m](_ => None);
      val := new Option<Text>[m](_ => None);
      hash := new bv32[m](_ => 0);
      contents := map[];
      new;
      FreshTable(key[..], val[..], hash[..]);
    }

    /** The search loop of dictionary_get, dictionary_set and dictionary_unset. */
    method Find(k: Text, h: bv32) returns (i: nat)
      requires Valid() && h == HashOf(k)
      ensures i <= size
      ensures if i < size then key[i] == Some(k) && k in contents && contents[k] == val[i] else k !in contents
    {
      hide HashOf, Count;
      i := 0;
      while i < size
        invariant i <= size && Some(k) !in key[..i]
      {
        if key[i].Some? {
          assert hash[..][i] == HashOf(key[..][i].value);
          if h == hash[i] && k == key[i].value {
            assert key[..][i] == Some(k);
            return;
          }
        }
        i := i + 1;
      }
      assert key[..i] == key[..];
    }

    /** dictionary_get: comparing the hashes first never changes the answer. */
    method Get(k: Text, def: Option<Text>) returns (r: Option<Text>)
      requires Valid()
      ensures r == if k in contents then contents[k] else def
    {
      hide Represents;
      var h := DictionaryHash(k);
      var i := Find(k, h);
      return if i < size then val[i] else def;
    }

    /** The doubling of the three arrays when every slot is taken. */
    method Grow()
      requires Valid()
      modifies this`key, this`val, this`hash, this`size
      ensures Valid() && size == 2 * old(size) && None in key[..]
      ensures fresh(key) && fresh(val) && fresh(hash)
    {
      hide Count, HashOf, Represents, Hashed;
      var key2 := MemDouble(key, None);
      var val2 := MemDouble(val, None);
      var hash2 := MemDouble(hash, 0);
      RepresentsGrow(key[..], val[..], contents, key2[size..], val2[size..]);
      CountEmpty(key[..], key2[size..]);
      HashedGrow(key[..], hash[..], key2[size..], hash2[size..]);
      assert key2[size] in key2[..];
      key, val, hash, size := key2, val2, hash2, 2 * size;
    }

    /** dictionary_set. A NULL key is refused. */
    method Set(k: Option<Text>, v: Option<Text>) returns (r: int)
      requires Valid()
      modifies this, key, val, hash
      ensures Valid() && fresh(Arrays() - old(Arrays()))
      ensures k.None? ==> r == -1 && contents == old(contents)
      ensures k.Some? ==> r == 0 && contents == old(contents)[k.value := v]
    {
      if k.None? {
        return -1;
      }
      hide HashOf, Represents, Hashed, Count;
      var h := DictionaryHash(k.value);
      if n > 0 {
        var i := Find(k.value, h);
        if i < size {
          Replace(i, k.value, v);
          return 0;
        }
      } else {
        NothingThere(key[..], val[..], contents);
      }
      Add(k.value, v, h);
      return 0;
    }

    /** The rest of dictionary_set, for a new key. */
    method Add(k: Text, v: Option<Text>, h: bv32)
      requires Valid() && k !in contents && h == HashOf(k)
      modifies this, key, val, hash
      ensures Valid() && fresh(Arrays() - old(Arrays())) && contents == old(contents)[k := v]
    {
      hide HashOf, Represents, Hashed, Count;
      if n == size {
        Grow();
      }
      var i := FirstFree();
      Insert(i, k, v, h);
    }

    method Replace(i: nat, k: Text, v: Option<Text>)
      requires Valid() && i < size && key[i] == Some(k)
      modifies this`contents, val
      ensures Valid() && contents == old(contents)[k := v]
    {
      hide Count, HashOf, Represents, Hashed;
      RepresentsSet(key[..], val[..], contents, i, k, v);
      val[i] := v;
      assert key[..] == old(key[..]) && hash[..] == old(hash[..]);
      assert key[..] == old(key[..])[i := Some(k)];
      assert val[..] == old(val[..])[i := v];
      contents := contents[k := v];
    }

    method FirstFree() returns (i: nat)
      requires Valid() && None in key[..]
      ensures i < size && key[i].None?
    {
      hide Count, HashOf, Represents, Hashed;
      i := 0;
      while i < size && key[i].Some?
        invariant i <= size && None !in key[..i]
      {
        i := i + 1;
      }
      assert key[..size] == key[..];
    }

    /** A new key into a free slot. */
    method Insert(i: nat, k: Text, v: Option<Text>, h: bv32)
      requires Valid() && i < size && key[i].None? && k !in contents && h == HashOf(k)
      modifies this`n, this`contents, key, val, hash
      ensures Valid() && contents == old(contents)[k := v]
    {
      hide Count, HashOf, Represents, Hashed;
      RepresentsSet(key[..], val[..], contents, i, k, v);
      CountSet(key[..], i, Some(k));
      HashedSet(key[..], hash[..], i, Some(k), h);
      Write(i, Some(k), v, h);
      n := n + 1;
      contents := contents[k := v];
    }

    method Write(i: nat, k: Option<Text>, v: Option<Text>, h: bv32)
      requires key.Length == val.Length == hash.Length && i < key.Length && Apart()
      modifies key, val, hash
      ensures key[..] == old(key[..])[i := k] && val[..] == old(val[..])[i := v] && hash[..] == old(hash[..])[i := h]
    {
      key[i] := k;
      val[i] := v;
      hash[i] := h;
    }

    /** dictionary_unset. */
    method Unset(k: Option<Text>)
      requires Valid()
      modifies this`n, this`contents, key, val, hash
      ensures Valid()
      ensures contents == if k.Some? then old(contents) - {k.value} else old(contents)
    {
      if k.None? {
        return;
      }
      hide Count, HashOf, Represents, Hashed;
      var h := DictionaryHash(k.value);
      var i := Find(k.value, h);
      if i < size {
        Clear(i);
      }
    }

    method Clear(i: nat)
      requires Valid() && i < size && key[i].Some?
      modifies this`n, this`contents, key, val, hash
      ensures Valid() && contents == old(contents) - {old(key[i]).value}
    {
      hide Count, HashOf, Represents, Hashed;
      RepresentsUnset(key[..], val[..], contents, i);
      CountSet(key[..], i, None);
      HashedSet(key[..], hash[..], i, None, 0);
      Write(i, None, None, 0);
      n := n - 1;
      contents := contents - {old(key[i]).value};
    }
  }

  lemma FreshTable(keys: seq<Option<Text>>, vals: seq<Option<Text>>, hash: seq<bv32>)
    requires |keys| == |vals| == |hash| && forall i | 0 <= i < |keys| :: keys[i].None?
    ensures Count(keys) == 0 && Hashed(keys, hash) && Represents(keys, vals, map[])
  {
    assert [] + keys == keys;
    CountEmpty([], keys);
  }

  lemma NothingThere(keys: seq<Option<Text>>, vals: seq<Option<Text>>, m: map<Text, Option<Text>>)
    requires Represents(keys, vals, m) && Count(keys) == 0
    ensures m == map[]
  {
    CountZero(keys);
  }

  lemma {:induction false} CountZero(keys: seq<Option<Text>>)
    requires Count(keys) == 0
    ensures forall i | 0 <= i < |keys| :: keys[i].None?
  {
    if keys != [] {
      CountZero(keys[..|keys| - 1]);
    }
  }

  lemma HashedGrow(keys: seq<Option<Text>>, hash: seq<bv32>, tail: seq<Option<Text>>, more: seq<bv32>)
    requires Hashed(keys, hash) && |tail| == |more| && forall i | 0 <= i < |tail| :: tail[i].None?
    ensures Hashed(keys + tail, hash + more)
  {
    hide HashOf;
  }

  lemma HashedSet(keys: seq<Option<Text>>, hash: seq<bv32>, i: nat, k: Option<Text>, h: bv32)
    requires Hashed(keys, hash) && i < |keys| && (k.Some? ==> h == HashOf(k.value))
    ensures Hashed(keys[i := k], hash[i := h])
  {
    hide HashOf;
  }
}
