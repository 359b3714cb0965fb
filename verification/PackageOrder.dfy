/** The order of archive entries does not matter. */
module PackageOrder {
  import opened Bytes
  import opened Intervals
  import opened EntryNames
  import opened Package
  import opened PackageRead

  lemma SameElements<T>(xs: seq<T>, ys: seq<T>)
    requires multiset(xs) == multiset(ys)
    ensures |xs| == |ys| && forall x :: x in xs <==> x in ys
  {
    assert |xs| == |multiset(xs)| && |ys| == |multiset(ys)|;
    forall x
      ensures x in xs <==> x in ys
    {
      assert x in xs <==> x in multiset(xs);
      assert x in ys <==> x in multiset(ys);
    }
  }

  /** A value that stands at two places has multiplicity two. */
  lemma TwoPlaces<T>(xs: seq<T>, i: nat, j: nat)
    requires i < j < |xs| && xs[i] == xs[j]
    ensures multiset(xs)[xs[i]] >= 2
  {
    assert xs == xs[..j] + xs[j..];
    assert xs[i] == xs[..j][i] && xs[j] == xs[j..][0];
    assert multiset(xs) == multiset(xs[..j]) + multiset(xs[j..]);
    assert xs[i] in multiset(xs[..j]) && xs[i] in multiset(xs[j..]);
  }

  /** A value of multiplicity two stands at two places. */
  lemma {:induction false} PlacesOfTwo<T>(xs: seq<T>, x: T) returns (i: nat, j: nat)
    requires multiset(xs)[x] >= 2
    ensures i < j < |xs| && xs[i] == x && xs[j] == x
  {
    assert xs != [];
    var front, last := xs[..|xs| - 1], xs[|xs| - 1];
    assert xs == front + [last];
    if last == x {
      assert multiset(xs)[x] == multiset(front)[x] + 1;
      assert x in multiset(front);
      i :| 0 <= i < |front| && front[i] == x;
      j := |xs| - 1;
    } else {
      assert multiset(xs)[x] == multiset(front)[x];
      i, j := PlacesOfTwo(front, x);
    }
  }

  /** Two places of a permutation come from two places. */
  lemma Places<T>(a: seq<T>, b: seq<T>, i: nat, j: nat) returns (p: nat, q: nat)
    requires multiset(a) == multiset(b) && i < j < |b|
    ensures p < |a| && q < |a| && p != q && a[p] == b[i] && a[q] == b[j]
  {
    if b[i] == b[j] {
      TwoPlaces(b, i, j);
      p, q := PlacesOfTwo(a, b[i]);
    } else {
      SameElements(a, b);
      assert b[i] in a && b[j] in a;
      p :| 0 <= p < |a| && a[p] == b[i];
      q :| 0 <= q < |a| && a[q] == b[j];
    }
  }

  lemma DistinctPermutes(a: seq<Info>, b: seq<Info>)
    requires multiset(a) == multiset(b) && DistinctNames(a)
    ensures DistinctNames(b)
  {
    hide Key;
    forall i, j | 0 <= i < j < |b|
      ensures Key(b[i].filename) != Key(b[j].filename)
    {
      var p, q := Places(a, b, i, j);
      assert p < q || q < p;
    }
  }

  /** With distinct keys, each entry is found under its own name. */
  lemma {:induction false} EntryFound(infos: seq<Info>, i: nat)
    requires i < |infos| && DistinctNames(infos)
    requires forall k :: 0 <= k < |infos| ==> infos[k].content.Some?
    ensures infos[i].filename in EntriesOf(infos)
    ensures EntriesOf(infos)[infos[i].filename] == infos[i].content.value
  {
    hide Key;
    var front := infos[..|infos| - 1];
    if i < |front| {
      assert front[i] == infos[i];
      assert Key(infos[i].filename) != Key(infos[|infos| - 1].filename);
      EntryFound(front, i);
    }
  }

  lemma EntryInBoth(a: seq<Info>, b: seq<Info>, n: string)
    requires (forall x :: x in a ==> x in b) && DistinctNames(a) && DistinctNames(b)
    requires forall k :: 0 <= k < |a| ==> a[k].content.Some?
    requires forall k :: 0 <= k < |b| ==> b[k].content.Some?
    ensures n in EntriesOf(a) ==> n in EntriesOf(b) && EntriesOf(a)[n] == EntriesOf(b)[n]
  {
    hide Key, DistinctNames;
    EntryNamesOf(a);
    if n in EntriesOf(a) {
      var i :| 0 <= i < |a| && a[i].filename == n;
      assert a[i] in b;
      var j :| 0 <= j < |b| && b[j] == a[i];
      EntryFound(a, i);
      EntryFound(b, j);
    }
  }

  lemma SameEntries(a: seq<Info>, b: seq<Info>)
    requires multiset(a) == multiset(b) && DistinctNames(a) && DistinctNames(b)
    requires forall k :: 0 <= k < |a| ==> a[k].content.Some?
    requires forall k :: 0 <= k < |b| ==> b[k].content.Some?
    ensures EntriesOf(a) == EntriesOf(b)
  {
    hide Key, DistinctNames;
    SameElements(a, b);
    forall n
      ensures n in EntriesOf(a) <==> n in EntriesOf(b)
      ensures n in EntriesOf(a) && n in EntriesOf(b) ==> EntriesOf(a)[n] == EntriesOf(b)[n]
    {
      EntryInBoth(a, b, n);
      EntryInBoth(b, a, n);
    }
  }

  /** The loop admits a sequence of entries exactly when it admits any permutation of it, with the same map. */
  lemma AdmissionIgnoresOrder(a: seq<Info>, b: seq<Info>)
    requires multiset(a) == multiset(b)
    ensures Admitted(a) <==> Admitted(b)
    ensures Admitted(a) ==> EntriesOf(a) == EntriesOf(b)
  {
    hide InfoLegal, DistinctNames, SumOf;
    SameElements(a, b);
    SumOfPermutation(a, b, UiCount);
    SumOfPermutation(a, b, UiSize);
    SumOfPermutation(a, b, FileSize);
    LegalPermutes(a, b);
    LegalPermutes(b, a);
    if Admitted(a) {
      DistinctPermutes(a, b);
      AllContents(a);
      AllContents(b);
      SameEntries(a, b);
    }
    if Admitted(b) {
      DistinctPermutes(b, a);
    }
  }

  /** What reading the archive returns; None when it is refused. */
  ghost function ReadOf(archive: Archive, tools: Tools): Option<Contents> {
    if PackageAccepts(archive, tools) then
      AdmittedContents(archive.infos);
      Some(ContentsOf(EntriesOf(archive.infos), tools))
    else None
  }

  /** Archives with the same entries in another order are read alike: both refused, or the same contents. */
  lemma ReadingIgnoresOrder(a: Archive, b: Archive, tools: Tools)
    requires multiset(a.infos) == multiset(b.infos) && a.suffix == b.suffix && a.size == b.size
    ensures ReadOf(a, tools) == ReadOf(b, tools)
  {
    hide Admitted, EntriesOf, ContentsAccept, ContentsOf;
    SameElements(a.infos, b.infos);
    AdmissionIgnoresOrder(a.infos, b.infos);
    if Admitted(a.infos) {
      AdmittedContents(a.infos);
      AdmittedContents(b.infos);
    }
  }

  lemma LegalPermutes(a: seq<Info>, b: seq<Info>)
    requires forall x :: x in b ==> x in a
    ensures (forall i :: 0 <= i < |a| ==> InfoLegal(a[i])) ==> forall i :: 0 <= i < |b| ==> InfoLegal(b[i])
  {
    hide InfoLegal;
    assert forall i :: 0 <= i < |b| ==> b[i] in a;
  }

  lemma AllContents(infos: seq<Info>)
    requires forall i :: 0 <= i < |infos| ==> InfoLegal(infos[i])
    ensures forall i :: 0 <= i < |infos| ==> infos[i].content.Some?
  {
    hide InfoLegal;
    forall i | 0 <= i < |infos|
      ensures infos[i].content.Some?
    {
      LegalContent(infos[i]);
    }
  }

  /** Names of one package differ even when upper and lower case are not told apart. */
  lemma NamesDistinctUpToCase(infos: seq<Info>, i: nat, j: nat)
    requires Admitted(infos) && i < j < |infos|
    ensures Lower(infos[i].filename) != Lower(infos[j].filename)
  {
    AcceptedKey(infos[i].filename);
    AcceptedKey(infos[j].filename);
    hide Lower, Key;
    assert Key(infos[i].filename) != Key(infos[j].filename);
  }
}
