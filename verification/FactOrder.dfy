/** The canonical fact order: a stable sort by content hash, and what makes its result unique. */
module FactOrder {
  import opened Arith
  import opened Bytes

  /** A fact whose content was verified against its hash. */
  datatype Fact = Fact(contentHash: Hash, content: bytes)

  /** Byte-wise lexicographic order. */
  predicate LexLeq(a: bytes, b: bytes) {
    a == [] || (b != [] && (a[0] < b[0] || (a[0] == b[0] && LexLeq(a[1..], b[1..]))))
  }

  /** `a` ends where `b` goes on, or is smaller at the first byte where they differ. */
  ghost predicate ComesFirst(a: bytes, b: bytes) {
    (|a| <= |b| && a == b[..|a|])
    || exists d :: 0 <= d < |a| && d < |b| && a[..d] == b[..d] && a[d] < b[d]
  }

  lemma {:induction false} LexLeqIff(a: bytes, b: bytes)
    ensures LexLeq(a, b) <==> ComesFirst(a, b)
  {
    if a != [] && b != [] && a[0] == b[0] {
      LexLeqIff(a[1..], b[1..]);
      if ComesFirst(a[1..], b[1..]) {
        TailComesFirst(a, b);
      }
      if ComesFirst(a, b) {
        ComesFirstTail(a, b);
      }
    } else if a != [] && b != [] && a[0] < b[0] {
      assert a[..0] == b[..0];
    } else if a != [] && b != [] {
      forall d | 0 <= d < |a| && d < |b| && a[..d] == b[..d] ensures a[d] >= b[d] {
        PrefixHead(a, b, d);
      }
    }
  }

  lemma PrefixHead(a: bytes, b: bytes, d: nat)
    requires d <= |a| && d <= |b| && a[..d] == b[..d]
    ensures d > 0 ==> a[0] == b[0]
  {
    if d > 0 {
      assert a[..d][0] == a[0] && b[..d][0] == b[0];
    }
  }

  lemma TailComesFirst(a: bytes, b: bytes)
    requires a != [] && b != [] && a[0] == b[0] && ComesFirst(a[1..], b[1..])
    ensures ComesFirst(a, b)
  {
    HeadTail(a);
    HeadTail(b);
    if |a| <= |b| && a[1..] == b[1..][..|a| - 1] {
      assert a == b[..|a|];
    } else {
      var d :| 0 <= d < |a[1..]| && d < |b[1..]| && a[1..][..d] == b[1..][..d] && a[1..][d] < b[1..][d];
      assert a[..d + 1] == [a[0]] + a[1..][..d] && b[..d + 1] == [b[0]] + b[1..][..d];
      assert a[d + 1] < b[d + 1];
    }
  }

  lemma ComesFirstTail(a: bytes, b: bytes)
    requires a != [] && b != [] && a[0] == b[0] && ComesFirst(a, b)
    ensures ComesFirst(a[1..], b[1..])
  {
    if |a| <= |b| && a == b[..|a|] {
      assert a[1..] == b[1..][..|a| - 1];
    } else {
      var d :| 0 <= d < |a| && d < |b| && a[..d] == b[..d] && a[d] < b[d];
      assert a[1..][..d - 1] == a[..d][1..] && b[1..][..d - 1] == b[..d][1..];
      assert a[1..][d - 1] < b[1..][d - 1];
    }
  }

  /** Of two facts in the sorted list the earlier one's hash is the same or smaller at the first byte that differs. */
  lemma HashesAscend(fs: seq<Fact>, i: nat, j: nat)
    requires i < j < |SortByHash(fs)|
    ensures
      var g, h := SortByHash(fs)[i].contentHash, SortByHash(fs)[j].contentHash;
      g == h || exists d :: 0 <= d < 32 && g[..d] == h[..d] && g[d] < h[d]
  {
    var g, h := SortByHash(fs)[i].contentHash, SortByHash(fs)[j].contentHash;
    SortIsStable(fs);
    LexLeqIff(g, h);
    if g != h {
      assert g != h[..32];
    }
  }

  lemma {:induction false} LexTotal(a: bytes, b: bytes)
    ensures LexLeq(a, b) || LexLeq(b, a)
    ensures LexLeq(a, b) && LexLeq(b, a) ==> a == b
  {
    if a != [] && b != [] {
      LexTotal(a[1..], b[1..]);
      assert a == [a[0]] + a[1..] && b == [b[0]] + b[1..];
    }
  }

  lemma {:induction false} LexTransitive(a: bytes, b: bytes, c: bytes)
    requires LexLeq(a, b) && LexLeq(b, c)
    ensures LexLeq(a, c)
  {
    if a != [] && a[0] == b[0] == c[0] {
      LexTransitive(a[1..], b[1..], c[1..]);
    }
  }

  ghost predicate Sorted(fs: seq<Fact>) {
    forall i, j :: 0 <= i < j < |fs| ==> LexLeq(fs[i].contentHash, fs[j].contentHash)
  }

  /** The facts with one hash, in list order. */
  function WithHash(fs: seq<Fact>, h: Hash): seq<Fact> {
    if fs == [] then [] else (if fs[0].contentHash == h then [fs[0]] else []) + WithHash(fs[1..], h)
  }

  function Insert(f: Fact, fs: seq<Fact>): seq<Fact> {
    if fs == [] || LexLeq(f.contentHash, fs[0].contentHash) then [f] + fs else [fs[0]] + Insert(f, fs[1..])
  }

  /** The result of the stable `sort_by` on content hashes. */
  function SortByHash(fs: seq<Fact>): seq<Fact> {
    if fs == [] then [] else Insert(fs[0], SortByHash(fs[1..]))
  }

  lemma {:induction false} InsertAddsOne(f: Fact, fs: seq<Fact>)
    ensures multiset(Insert(f, fs)) == multiset(fs) + multiset{f}
  {
    if fs != [] && !LexLeq(f.contentHash, fs[0].contentHash) {
      InsertAddsOne(f, fs[1..]);
      assert fs == [fs[0]] + fs[1..];
    }
  }

  lemma {:induction false} InsertKeepsSorted(f: Fact, fs: seq<Fact>)
    requires Sorted(fs)
    ensures Sorted(Insert(f, fs))
  {
    if fs == [] {
    } else if LexLeq(f.contentHash, fs[0].contentHash) {
      forall j | 0 < j <= |fs| ensures LexLeq(f.contentHash, ([f] + fs)[j].contentHash) {
        if j > 1 {
          LexTransitive(f.contentHash, fs[0].contentHash, fs[j - 1].contentHash);
        }
      }
    } else {
      var tail := Insert(f, fs[1..]);
      InsertKeepsSorted(f, fs[1..]);
      InsertAddsOne(f, fs[1..]);
      LexTotal(f.contentHash, fs[0].contentHash);
      forall j | 0 <= j < |tail| ensures LexLeq(fs[0].contentHash, tail[j].contentHash) {
        assert tail[j] in multiset(tail);
        assert tail[j] == f || tail[j] in fs[1..];
      }
    }
  }

  /** An inserted fact ends up before the facts with its own hash, as if it had stayed in front. */
  lemma {:induction false} InsertIsStable(f: Fact, fs: seq<Fact>, h: Hash)
    ensures WithHash(Insert(f, fs), h) == WithHash([f] + fs, h)
  {
    assert ([f] + fs)[1..] == fs;
    if fs != [] && !LexLeq(f.contentHash, fs[0].contentHash) {
      InsertIsStable(f, fs[1..], h);
      assert ([f] + fs[1..])[1..] == fs[1..];
      LexTotal(f.contentHash, f.contentHash);
    }
  }

  /** The sort orders by hash, permutes, and keeps equal hashes in list order. */
  lemma {:induction false} SortIsStable(fs: seq<Fact>)
    ensures Sorted(SortByHash(fs)) && multiset(SortByHash(fs)) == multiset(fs)
    ensures forall h: Hash :: WithHash(SortByHash(fs), h) == WithHash(fs, h)
  {
    if fs != [] {
      var rest := SortByHash(fs[1..]);
      SortIsStable(fs[1..]);
      InsertAddsOne(fs[0], rest);
      InsertKeepsSorted(fs[0], rest);
      assert fs == [fs[0]] + fs[1..];
      forall h: Hash ensures WithHash(SortByHash(fs), h) == WithHash(fs, h) {
        InsertIsStable(fs[0], rest, h);
        assert ([fs[0]] + rest)[1..] == rest;
      }
    }
  }

  lemma {:induction false} WithHashMembers(fs: seq<Fact>, h: Hash)
    ensures forall f :: f in WithHash(fs, h) <==> f in fs && f.contentHash == h
  {
    if fs != [] {
      WithHashMembers(fs[1..], h);
      assert fs == [fs[0]] + fs[1..];
    }
  }

  /** Sorted lists that agree hash by hash are the same list: any stable sort by hash returns SortByHash. */
  lemma {:induction false} StableSortUnique(s: seq<Fact>, t: seq<Fact>)
    requires Sorted(s) && Sorted(t)
    requires forall h: Hash :: WithHash(s, h) == WithHash(t, h)
    ensures s == t
  {
    if s == [] || t == [] {
      if s != [] {
        assert WithHash(t, s[0].contentHash) == [];
        WithHashMembers(s, s[0].contentHash);
      }
      if t != [] {
        assert WithHash(s, t[0].contentHash) == [];
        WithHashMembers(t, t[0].contentHash);
      }
    } else {
      var h := s[0].contentHash;
      SameLeastHash(s, t);
      assert s[0] == WithHash(s, h)[0] && t[0] == WithHash(t, h)[0];
      forall g: Hash ensures WithHash(s[1..], g) == WithHash(t[1..], g) {
        assert WithHash(s, g) == (if g == h then [s[0]] else []) + WithHash(s[1..], g);
        assert WithHash(t, g) == (if g == h then [t[0]] else []) + WithHash(t[1..], g);
        SplitEqual(
          if g == h then [s[0]] else [], if g == h then [t[0]] else [], WithHash(s[1..], g), WithHash(t[1..], g));
      }
      StableSortUnique(s[1..], t[1..]);
      HeadTail(s);
      HeadTail(t);
    }
  }

  /** Sorted lists with the same facts for every hash start with the same hash. */
  lemma SameLeastHash(s: seq<Fact>, t: seq<Fact>)
    requires Sorted(s) && Sorted(t) && s != [] && t != []
    requires forall h: Hash :: WithHash(s, h) == WithHash(t, h)
    ensures s[0].contentHash == t[0].contentHash
  {
    var hs, ht := s[0].contentHash, t[0].contentHash;
    WithHashMembers(s, hs);
    WithHashMembers(t, hs);
    WithHashMembers(s, ht);
    WithHashMembers(t, ht);
    assert s[0] in WithHash(t, hs) && t[0] in WithHash(s, ht);
    HeadIsLeast(t, s[0]);
    HeadIsLeast(s, t[0]);
    LexTotal(hs, ht);
  }

  lemma HeadIsLeast(s: seq<Fact>, f: Fact)
    requires s != [] && Sorted(s) && f in s
    ensures LexLeq(s[0].contentHash, f.contentHash)
  {
    var i :| 0 <= i < |s| && s[i] == f;
    if i == 0 {
      LexTotal(f.contentHash, f.contentHash);
    }
  }

  /** Facts that agree with one hash-to-content map: equal hashes have equal contents. */
  ghost predicate Agree(fs: seq<Fact>) {
    forall f, g :: f in fs && g in fs && f.contentHash == g.contentHash ==> f == g
  }

  lemma TailMultiset(s: seq<Fact>)
    requires s != []
    ensures multiset(s[1..]) == multiset(s) - multiset{s[0]}
  {
    HeadTail(s);
  }

  /** Under one hash-to-content map a sorted list is determined by its multiset. */
  lemma {:induction false} SortedUnique(s: seq<Fact>, t: seq<Fact>)
    requires Sorted(s) && Sorted(t) && Agree(s) && multiset(s) == multiset(t)
    ensures s == t
  {
    if s == [] || t == [] {
      assert |multiset(s)| == |s| && |multiset(t)| == |t|;
    } else {
      assert s[0] == t[0] by {
        assert s[0] in multiset(t) && t[0] in multiset(s);
        HeadIsLeast(s, t[0]);
        HeadIsLeast(t, s[0]);
        LexTotal(s[0].contentHash, t[0].contentHash);
      }
      TailMultiset(s);
      TailMultiset(t);
      HeadTail(s);
      HeadTail(t);
      SortedUnique(s[1..], t[1..]);
    }
  }
}
