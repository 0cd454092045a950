/** The duplicate-free table of string hashes. */
module HashTable {
  import opened Words
  import opened ChibiHash
  import CString
  import HashCollisions

  const SEED: Word := 0xFFFF_FFFF_FFFF_FFFF

  function StringHash(s: seq<Byte>): Word
    requires |s| < 0x8000_0000_0000_0000
  {
    Hash(s, SEED)
  }

  /** The table after one insertion: zero hashes and hashes already present are dropped. */
  function Insert(t: seq<Word>, h: Word): seq<Word> {
    if h == 0 || h in t then t else t + [h]
  }

  function InsertAll(t: seq<Word>, hs: seq<Word>): seq<Word>
    decreases |hs|
  {
    if hs == [] then t else InsertAll(Insert(t, hs[0]), hs[1..])
  }

  // ---- First-occurrence order ----

  /** hs without zeros and without anything in drop. */
  function Without(hs: seq<Word>, drop: seq<Word>): seq<Word> {
    if hs == [] then []
    else if hs[0] == 0 || hs[0] in drop then Without(hs[1..], drop)
    else [hs[0]] + Without(hs[1..], drop)
  }

  function Others(hs: seq<Word>, x: Word): (r: seq<Word>)
    ensures |r| <= |hs|
  {
    if hs == [] then [] else if hs[0] == x then Others(hs[1..], x) else [hs[0]] + Others(hs[1..], x)
  }

  /** The elements of hs, each at its first occurrence only. */
  function FirstOccurrences(hs: seq<Word>): seq<Word>
    decreases |hs|
  {
    if hs == [] then [] else [hs[0]] + FirstOccurrences(Others(hs[1..], hs[0]))
  }

  lemma {:induction false} OthersWithout(hs: seq<Word>, drop: seq<Word>, x: Word)
    ensures Others(Without(hs, drop), x) == Without(hs, drop + [x])
  {
    if hs != [] {
      OthersWithout(hs[1..], drop, x);
      if hs[0] != 0 && hs[0] !in drop {
        assert ([hs[0]] + Without(hs[1..], drop))[1..] == Without(hs[1..], drop);
      }
    }
  }

  lemma NewFirst(t: seq<Word>, hs: seq<Word>)
    requires hs != [] && hs[0] != 0 && hs[0] !in t
    ensures FirstOccurrences(Without(hs, t)) == [hs[0]] + FirstOccurrences(Without(hs[1..], t + [hs[0]]))
  {
    OthersWithout(hs[1..], t, hs[0]);
    assert Without(hs, t)[1..] == Without(hs[1..], t);
  }

  lemma Regroup(t: seq<Word>, x: Word, f: seq<Word>)
    ensures t + [x] + f == t + ([x] + f)
  {
  }

  lemma OldFirst(t: seq<Word>, hs: seq<Word>)
    requires hs != [] && (hs[0] == 0 || hs[0] in t)
    ensures Without(hs, t) == Without(hs[1..], t) && Insert(t, hs[0]) == t
  {
  }

  /** Any run of insertions appends, in order of first occurrence, the nonzero hashes not yet present. */
  lemma {:induction false} TableIsDeduplication(t: seq<Word>, hs: seq<Word>)
    ensures InsertAll(t, hs) == t + FirstOccurrences(Without(hs, t))
    decreases |hs|
  {
    if hs != [] {
      hide Without, FirstOccurrences;
      TableIsDeduplication(Insert(t, hs[0]), hs[1..]);
      if hs[0] != 0 && hs[0] !in t {
        NewFirst(t, hs);
        Regroup(t, hs[0], FirstOccurrences(Without(hs[1..], t + [hs[0]])));
      } else {
        OldFirst(t, hs);
      }
    }
  }

  // ---- What that means for membership ----

  lemma {:induction false} WithoutMembers(hs: seq<Word>, drop: seq<Word>, h: Word)
    ensures h in Without(hs, drop) <==> h in hs && h != 0 && h !in drop
  {
    if hs != [] {
      WithoutMembers(hs[1..], drop, h);
    }
  }

  lemma {:induction false} OthersMembers(hs: seq<Word>, x: Word, h: Word)
    ensures h in Others(hs, x) <==> h in hs && h != x
  {
    if hs != [] {
      OthersMembers(hs[1..], x, h);
    }
  }

  lemma {:induction false} FirstOccurrencesMembers(hs: seq<Word>, h: Word)
    ensures h in FirstOccurrences(hs) <==> h in hs
    decreases |hs|
  {
    if hs != [] {
      FirstOccurrencesMembers(Others(hs[1..], hs[0]), h);
      OthersMembers(hs[1..], hs[0], h);
    }
  }

  ghost predicate Distinct(s: seq<Word>) {
    forall i, j | 0 <= i < j < |s| :: s[i] != s[j]
  }

  lemma {:induction false} FirstOccurrencesDistinct(hs: seq<Word>)
    ensures Distinct(FirstOccurrences(hs))
    decreases |hs|
  {
    if hs != [] {
      var others := Others(hs[1..], hs[0]);
      FirstOccurrencesDistinct(others);
      FirstOccurrencesMembers(others, hs[0]);
      OthersMembers(hs[1..], hs[0], hs[0]);
    }
  }

  /** From the empty table: the table holds exactly the nonzero hashes inserted, ... */
  lemma TableMembers(hs: seq<Word>, h: Word)
    ensures h in InsertAll([], hs) <==> h in hs && h != 0
  {
    TableIsDeduplication([], hs);
    FirstOccurrencesMembers(Without(hs, []), h);
    WithoutMembers(hs, [], h);
    assert [] + FirstOccurrences(Without(hs, [])) == FirstOccurrences(Without(hs, []));
  }

  /** ... each once. */
  lemma TableDistinct(hs: seq<Word>)
    ensures Distinct(InsertAll([], hs))
  {
    TableIsDeduplication([], hs);
    FirstOccurrencesDistinct(Without(hs, []));
    assert [] + FirstOccurrences(Without(hs, [])) == FirstOccurrences(Without(hs, []));
  }

  /** Growth keeps the old table as a prefix. */
  lemma {:induction false} OldPrefixKept(t: seq<Word>, hs: seq<Word>)
    ensures t <= InsertAll(t, hs)
  {
    TableIsDeduplication(t, hs);
  }

  lemma {:induction false} RunsConcatenate(t: seq<Word>, hs: seq<Word>, more: seq<Word>)
    ensures InsertAll(t, hs + more) == InsertAll(InsertAll(t, hs), more)
    decreases |hs|
  {
    if hs == [] {
      assert hs + more == more;
    } else {
      assert (hs + more)[1..] == hs[1..] + more;
      RunsConcatenate(Insert(t, hs[0]), hs[1..], more);
    }
  }

  /** Inserting what was inserted before changes nothing. */
  lemma ReinsertionIsNoOp(hs: seq<Word>, h: Word)
    requires h in hs
    ensures InsertAll([], hs + [h]) == InsertAll([], hs)
  {
    RunsConcatenate([], hs, [h]);
    TableMembers(hs, h);
    assert InsertAll(InsertAll([], hs), [h]) == Insert(InsertAll([], hs), h);
  }

  // ---- The program's table ----

  ghost predicate Usable(str: array<Byte>)
    reads str
  {
    str.Length < 0x8000_0000_0000_0000 && CString.Terminated(str[..], 0)
  }

  ghost function HashOf(str: array<Byte>): Word
    requires Usable(str)
    reads str
  {
    StringHash(CString.Text(str[..], 0))
  }

  method ChibiHash64Wrapper(str: array<Byte>) returns (h: Word)
    requires Usable(str)
    ensures h == HashOf(str)
    ensures h == Hash(CString.Text(str[..], 0), 0xFFFF_FFFF_FFFF_FFFF)
  {
    hide Hash;
    var len := CString.StrLen(str, 0);
    ghost var seen;
    h, seen := ChibiHash64(str, len, SEED);
  }

  class Table {
    var hashArray: array?<Word>
    var entryCount: nat

    ghost predicate Valid()
      reads this, hashArray
    {
      if hashArray == null then entryCount == 0 else hashArray.Length == entryCount
    }

    ghost function Contents(): seq<Word>
      requires Valid()
      reads this, hashArray
    {
      if hashArray == null then [] else hashArray[..]
    }

    constructor ()
      ensures Valid() && Contents() == []
    {
      hashArray, entryCount := null, 0;
    }

    /** realloc by one entry, then write it behind the old ones. */
    method Append(hash: Word)
      requires Valid()
      modifies this
      ensures Valid() && Contents() == old(Contents()) + [hash]
    {
      var tail := entryCount;
      var grown := new Word[entryCount + 1];
      if hashArray != null {
        forall i | 0 <= i < tail {
          grown[i] := hashArray[i];
        }
      }
      grown[tail] := hash;
      hashArray := grown;
      entryCount := entryCount + 1;
      assert grown[..tail] == old(Contents());
    }

    /** One insertion, every allocation succeeding. The table grows by at most one entry, at its end. */
    method TableInsert(str: array?<Byte>)
      requires Valid() && (str != null ==> Usable(str))
      modifies this
      ensures Valid()
      ensures Contents() == if str == null then old(Contents()) else Insert(old(Contents()), HashOf(str))
    {
      hide Hash;
      if str == null {
        return;
      }
      var hash := ChibiHash64Wrapper(str);
      if hash == 0 {
        return;
      }
      if hashArray != null {
        var i := 0;
        while i < entryCount
          invariant 0 <= i <= entryCount
          invariant hash !in hashArray[..i]
        {
          if hashArray[i] == hash {
            return;
          }
          i := i + 1;
        }
        assert hashArray[..entryCount] == hashArray[..];
      }
      Append(hash);
    }

    /** A run of insertions, as the main program makes; hs are the hashes of the strings. */
    method InsertStrings(strs: seq<array<Byte>>) returns (ghost hs: seq<Word>)
      requires Valid() && forall i | 0 <= i < |strs| :: Usable(strs[i])
      modifies this
      ensures Valid()
      ensures |hs| == |strs| && forall i | 0 <= i < |strs| :: hs[i] == HashOf(strs[i])
      ensures Contents() == InsertAll(old(Contents()), hs)
    {
      hide StringHash, CString.Text, Usable;
      hs := [];
      var i := 0;
      while i < |strs|
        invariant 0 <= i <= |strs| && Valid() && |hs| == i
        invariant forall j | 0 <= j < i :: hs[j] == HashOf(strs[j])
        invariant Contents() == InsertAll(old(Contents()), hs)
      {
        TableInsert(strs[i]);
        RunsConcatenate(old(Contents()), hs, [HashOf(strs[i])]);
        hs := hs + [HashOf(strs[i])];
        i := i + 1;
      }
    }

    /** The main program's search: None when the query's hash is zero, otherwise whether it is in the table. */
    method Find(query: array<Byte>) returns (refused: bool, found: bool)
      requires Valid() && Usable(query)
      ensures refused <==> HashOf(query) == 0
      ensures !refused ==> (found <==> HashOf(query) in Contents())
    {
      hide Hash;
      var hash := ChibiHash64Wrapper(query);
      if hash == 0 {
        return true, false;
      }
      found := false;
      var i := 0;
      while i < entryCount
        invariant 0 <= i <= entryCount
        invariant hashArray == null ==> i == 0
        invariant hashArray != null ==> hash !in hashArray[..i]
      {
        if hashArray[i] == hash {
          return false, true;
        }
        i := i + 1;
      }
      assert hashArray != null ==> hashArray[..entryCount] == hashArray[..];
      return false, false;
    }
  }

  // ---- Lookup against the inserted strings ----

  function Hashes(ss: seq<seq<Byte>>): (hs: seq<Word>)
    requires forall s | s in ss :: |s| < 0x8000_0000_0000_0000
    ensures |hs| == |ss|
  {
    seq(|ss|, i requires 0 <= i < |ss| => StringHash(ss[i]))
  }

  /** A query's hash is in the table exactly when it is nonzero and some inserted string has the same hash. */
  lemma FoundIffInserted(ss: seq<seq<Byte>>, q: seq<Byte>)
    requires |q| < 0x8000_0000_0000_0000 && forall s | s in ss :: |s| < 0x8000_0000_0000_0000
    ensures StringHash(q) in InsertAll([], Hashes(ss))
       <==> StringHash(q) != 0 && exists s | s in ss :: StringHash(s) == StringHash(q)
  {
    hide Hash;
    TableMembers(Hashes(ss), StringHash(q));
    assert forall i | 0 <= i < |ss| :: Hashes(ss)[i] == StringHash(ss[i]);
  }

  /** The two strings have one length and differ exactly inside one aligned word of the 8-byte region. */
  ghost predicate OneWordApart(s: seq<Byte>, q: seq<Byte>, p: nat) {
    && |s| == |q| && s != q
    && p % 4 == 0 && 32 * (|q| / 32) <= p && p + 4 <= 8 * (|q| / 8)
    && HashCollisions.ChangedOnlyIn(s, q, p, p + 4)
  }

  /** s is one word away from q: one word of the 8-byte region, or one tail word. */
  ghost predicate Neighbours(s: seq<Byte>, q: seq<Byte>) {
    || (exists p :: OneWordApart(s, q, p))
    || (exists i :: HashCollisions.OnlyTailWordDiffers(s, q, i))
  }

  lemma NeighboursDiffer(s: seq<Byte>, q: seq<Byte>)
    requires |q| < 0x8000_0000_0000_0000 && Neighbours(s, q)
    ensures |s| == |q| && StringHash(s) != StringHash(q)
  {
    hide Hash, HashCollisions.OnlyTailWordDiffers;
    if p :| OneWordApart(s, q, p) {
      HashCollisions.OneWordNeverCollides(s, q, p, SEED);
    } else {
      var i :| HashCollisions.OnlyTailWordDiffers(s, q, i);
      HashCollisions.TailWordDiffers(s, q, i);
      HashCollisions.OneTailWordNeverCollides(s, q, i, SEED);
    }
  }

  /** In any table, no string one word away from the query can be what makes the query appear. */
  lemma NoFalseHit(ss: seq<seq<Byte>>, q: seq<Byte>)
    requires |q| < 0x8000_0000_0000_0000 && forall s | s in ss :: |s| < 0x8000_0000_0000_0000
    ensures StringHash(q) in InsertAll([], Hashes(ss))
       <==> StringHash(q) != 0 && exists s | s in ss :: StringHash(s) == StringHash(q) && !Neighbours(s, q)
  {
    hide StringHash, Neighbours;
    FoundIffInserted(ss, q);
    forall s | s in ss && Neighbours(s, q) ensures StringHash(s) != StringHash(q) {
      NeighboursDiffer(s, q);
    }
  }

  // ---- The program ----

  /** The whole program on an initially empty table: the strings go in, the query is looked up. Its verdict is "found"
      exactly when some inserted string has the query's hash; no query or one whose hash is zero is refused. */
  method InsertThenFind(strs: seq<array<Byte>>, query: array?<Byte>) returns (refused: bool, found: bool)
    requires (forall i | 0 <= i < |strs| :: Usable(strs[i])) && (query != null ==> Usable(query))
    ensures refused <==> query == null || HashOf(query) == 0
    ensures !refused ==> (found <==> exists i | 0 <= i < |strs| :: HashOf(strs[i]) == HashOf(query))
  {
    hide StringHash, CString.Text, Usable;
    if query == null {
      return true, false;
    }
    var table := new Table();
    ghost var hs := table.InsertStrings(strs);
    refused, found := table.Find(query);
    TableMembers(hs, HashOf(query));
  }
}
