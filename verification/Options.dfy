/** CoAP options and the ordered option list of a message. */
module Options {
  import opened Bytes

  const OBSERVE: uint16 := 6
  const URI_PORT: uint16 := 7
  const URI_PATH: uint16 := 11
  const CONTENT_FORMAT: uint16 := 12
  const MAX_AGE: uint16 := 14
  const ACCEPT: uint16 := 17
  const BLOCK_2: uint16 := 23
  const BLOCK_1: uint16 := 27
  const SIZE_2: uint16 := 28
  const SIZE_1: uint16 := 60
  const NO_RESPONSE: uint16 := 258

  /** Option numbers whose value is an integer rather than a buffer. */
  predicate IsInteger(number: uint16) {
    || number == OBSERVE || number == URI_PORT || number == CONTENT_FORMAT
    || number == MAX_AGE || number == ACCEPT || number == BLOCK_2
    || number == BLOCK_1 || number == SIZE_2 || number == SIZE_1
    || number == NO_RESPONSE
  }

  datatype Content = Integer(value: uint32) | Buffer(bytes: seq<byte>)

  datatype CoapOption = CoapOption(number: uint16, content: Content)

  /** The number selects the live member of the value, and a buffer has a 16-bit length. */
  predicate WellFormed(o: CoapOption) {
    match o.content
    case Integer(_) => IsInteger(o.number)
    case Buffer(bytes) => !IsInteger(o.number) && |bytes| < 0x1_0000
  }

  predicate AllWellFormed(os: seq<CoapOption>) {
    forall i :: 0 <= i < |os| ==> WellFormed(os[i])
  }

  predicate Sorted(os: seq<CoapOption>) {
    forall i, j :: 0 <= i < j < |os| ==> os[i].number <= os[j].number
  }

  predicate Uniform(os: seq<CoapOption>) {
    forall i, j :: 0 <= i < j < |os| ==> os[i].number == os[j].number
  }

  /** The options of one number, in list order. */
  function WithNumber(os: seq<CoapOption>, n: uint16): (r: seq<CoapOption>) {
    if os == [] then []
    else (if os[0].number == n then [os[0]] else []) + WithNumber(os[1..], n)
  }

  /** A sorted list that keeps, for every number, the options of that number in their
      original order. StableSortIsUnique shows that there is only one. */
  ghost predicate IsStableSort(r: seq<CoapOption>, input: seq<CoapOption>) {
    Sorted(r) && forall n: uint16 :: WithNumber(r, n) == WithNumber(input, n)
  }

  lemma Associate(a: seq<CoapOption>, b: seq<CoapOption>, c: seq<CoapOption>)
    ensures a + b + c == a + (b + c)
  {
  }

  lemma WithNumberUnfold(os: seq<CoapOption>, n: uint16)
    ensures WithNumber(os, n) ==
            if os == [] then [] else (if os[0].number == n then [os[0]] else []) + WithNumber(os[1..], n)
  {
  }

  lemma {:induction false} WithNumberConcat(a: seq<CoapOption>, b: seq<CoapOption>, n: uint16)
    ensures WithNumber(a + b, n) == WithNumber(a, n) + WithNumber(b, n)
  {
    hide WithNumber;
    WithNumberUnfold(a, n);
    if a == [] {
      assert a + b == b;
    } else {
      WithNumberConcat(a[1..], b, n);
      WithNumberUnfold(a + b, n);
      assert (a + b)[1..] == a[1..] + b && (a + b)[0] == a[0];
      var first := if a[0].number == n then [a[0]] else [];
      Associate(first, WithNumber(a[1..], n), WithNumber(b, n));
    }
  }

  lemma {:induction false} WithNumberMembers(os: seq<CoapOption>, n: uint16)
    ensures forall k :: 0 <= k < |WithNumber(os, n)| ==> WithNumber(os, n)[k].number == n
  {
    if os == [] {
    } else {
      WithNumberMembers(os[1..], n);
    }
  }

  lemma {:induction false} WithNumberEmpty(os: seq<CoapOption>, n: uint16)
    ensures WithNumber(os, n) == [] <==> forall i :: 0 <= i < |os| ==> os[i].number != n
  {
    if os == [] {
    } else {
      WithNumberEmpty(os[1..], n);
      assert forall i :: 1 <= i < |os| ==> os[i] == os[1..][i - 1];
    }
  }

  lemma {:induction false} StableSortIsUnique(r: seq<CoapOption>, s: seq<CoapOption>, input: seq<CoapOption>)
    requires IsStableSort(r, input) && IsStableSort(s, input)
    ensures r == s
  {
    forall n: uint16 ensures WithNumber(r, n) == WithNumber(s, n) {
      assert WithNumber(r, n) == WithNumber(input, n);
    }
    SameRunsSameList(r, s);
  }

  lemma {:induction false} SameRunsSameList(r: seq<CoapOption>, s: seq<CoapOption>)
    requires Sorted(r) && Sorted(s)
    requires forall n: uint16 :: WithNumber(r, n) == WithNumber(s, n)
    ensures r == s
  {
    hide Sorted;
    EmptyTogether(r, s);
    EmptyTogether(s, r);
    if r == [] {
    } else {
      SortedTail(r);
      SortedTail(s);
      HeadIsSmallest(r, s);
      HeadIsSmallest(s, r);
      var n := r[0].number;
      assert WithNumber(r, n) == WithNumber(s, n);
      assert r[0] == WithNumber(r, n)[0] == WithNumber(s, n)[0] == s[0];
      forall m: uint16 ensures WithNumber(r[1..], m) == WithNumber(s[1..], m) {
        var dropped := if m == n then [r[0]] else [];
        assert WithNumber(r, m) == dropped + WithNumber(r[1..], m);
        assert WithNumber(s, m) == dropped + WithNumber(s[1..], m);
        assert WithNumber(r, m)[|dropped|..] == WithNumber(r[1..], m);
        assert WithNumber(s, m)[|dropped|..] == WithNumber(s[1..], m);
      }
      SameRunsSameList(r[1..], s[1..]);
      assert r == [r[0]] + r[1..] && s == [s[0]] + s[1..];
    }
  }

  lemma EmptyTogether(r: seq<CoapOption>, s: seq<CoapOption>)
    requires forall n: uint16 :: WithNumber(r, n) == WithNumber(s, n)
    ensures s != [] ==> r != []
  {
    if s != [] {
      WithNumberEmpty(s, s[0].number);
      assert WithNumber(r, s[0].number) == WithNumber(s, s[0].number);
    }
  }

  lemma SortedTail(os: seq<CoapOption>)
    requires Sorted(os) && os != []
    ensures Sorted(os[1..])
  {
  }

  lemma HeadIsSmallest(r: seq<CoapOption>, s: seq<CoapOption>)
    requires Sorted(r) && r != [] && s != []
    requires forall n: uint16 :: WithNumber(r, n) == WithNumber(s, n)
    ensures r[0].number <= s[0].number
  {
    WithNumberEmpty(r, s[0].number);
    assert WithNumber(r, s[0].number) == WithNumber(s, s[0].number) != [];
  }

  // ---------- insertion ----------

  /** How many options precede the first one with a number above n. */
  function UpperBound(os: seq<CoapOption>, n: uint16): (k: nat)
    ensures k <= |os|
    ensures forall i :: 0 <= i < k ==> os[i].number <= n
    ensures k < |os| ==> os[k].number > n
  {
    if os == [] || os[0].number > n then 0 else 1 + UpperBound(os[1..], n)
  }

  /** A chain goes in whole, after the last option it must not overtake. */
  function Insert(os: seq<CoapOption>, chain: seq<CoapOption>): (r: seq<CoapOption>) {
    if chain == [] then os
    else
      var k := UpperBound(os, chain[0].number);
      os[..k] + chain + os[k..]
  }

  lemma RunMovesToEnd(low: seq<CoapOption>, mid: seq<CoapOption>, high: seq<CoapOption>, n: uint16)
    requires WithNumber(mid, n) == [] || WithNumber(high, n) == []
    ensures WithNumber(low + mid + high, n) == WithNumber(low + high, n) + WithNumber(mid, n)
  {
    WithNumberConcat(low + mid, high, n);
    WithNumberConcat(low, mid, n);
    WithNumberConcat(low, high, n);
  }

  lemma InsertKeepsRun(os: seq<CoapOption>, chain: seq<CoapOption>, n: uint16)
    requires Sorted(os) && Uniform(chain)
    ensures WithNumber(Insert(os, chain), n) == WithNumber(os, n) + WithNumber(chain, n)
  {
    if chain != [] {
      var k := UpperBound(os, chain[0].number);
      assert os[..k] + os[k..] == os;
      if chain[0].number == n {
        assert forall i :: 0 <= i < |os[k..]| ==> os[k..][i] == os[k + i];
        WithNumberEmpty(os[k..], n);
      } else {
        WithNumberEmpty(chain, n);
      }
      RunMovesToEnd(os[..k], chain, os[k..], n);
    }
  }

  lemma InsertIsStable(os: seq<CoapOption>, chain: seq<CoapOption>)
    requires Sorted(os) && Uniform(chain)
    ensures IsStableSort(Insert(os, chain), os + chain)
  {
    if chain != [] {
      InsertSortedIff(os, chain);
    }
    forall n: uint16 ensures WithNumber(Insert(os, chain), n) == WithNumber(os + chain, n) {
      InsertKeepsRun(os, chain, n);
      WithNumberConcat(os, chain, n);
    }
  }

  /** A chain of mixed numbers breaks the order unless it is sorted itself and no
      option already in the list belongs strictly inside its range. */
  lemma InsertSortedIff(os: seq<CoapOption>, chain: seq<CoapOption>)
    requires Sorted(os) && chain != []
    ensures Sorted(Insert(os, chain)) <==>
            Sorted(chain) &&
            forall i :: 0 <= i < |os| ==> !(chain[0].number < os[i].number < chain[|chain| - 1].number)
  {
    hide Sorted, UpperBound;
    var k := UpperBound(os, chain[0].number);
    var low, high := os[..k], os[k..];
    assert os == low + high;
    SortedConcat(low, high);
    SortedConcat(low, chain);
    SortedConcat(low + chain, high);
    assert low != [] ==> low[|low| - 1] == os[k - 1];
    assert (low + chain)[|low + chain| - 1] == chain[|chain| - 1];
    assert high != [] ==> high[0] == os[k];
    NothingBetween(os, chain[0].number, chain[|chain| - 1].number);
  }

  lemma NothingBetween(os: seq<CoapOption>, low: uint16, high: uint16)
    requires Sorted(os)
    ensures var k := UpperBound(os, low);
            (k < |os| ==> high <= os[k].number) <==> forall i :: 0 <= i < |os| ==> !(low < os[i].number < high)
  {
    var k := UpperBound(os, low);
    assert forall i :: k < i < |os| ==> os[k].number <= os[i].number;
  }

  lemma SortedConcat(a: seq<CoapOption>, b: seq<CoapOption>)
    ensures Sorted(a + b) <==>
            Sorted(a) && Sorted(b) && (a != [] && b != [] ==> a[|a| - 1].number <= b[0].number)
  {
    var r := a + b;
    if Sorted(r) {
      assert forall i :: 0 <= i < |a| ==> r[i] == a[i];
      forall i, j | 0 <= i < j < |b| ensures b[i].number <= b[j].number {
        assert r[|a| + i].number <= r[|a| + j].number;
      }
      assert a != [] && b != [] ==> r[|a| - 1].number <= r[|a|].number;
    }
  }

  // ---------- building a message, one chain at a time ----------

  function Flatten(chains: seq<seq<CoapOption>>): (r: seq<CoapOption>) {
    if chains == [] then [] else Flatten(chains[..|chains| - 1]) + chains[|chains| - 1]
  }

  function Build(chains: seq<seq<CoapOption>>): (r: seq<CoapOption>) {
    if chains == [] then [] else Insert(Build(chains[..|chains| - 1]), chains[|chains| - 1])
  }

  lemma {:induction false} BuildIsStableSort(chains: seq<seq<CoapOption>>)
    requires forall i :: 0 <= i < |chains| ==> Uniform(chains[i])
    ensures IsStableSort(Build(chains), Flatten(chains))
  {
    if chains == [] {
    } else {
      var front, last := chains[..|chains| - 1], chains[|chains| - 1];
      BuildIsStableSort(front);
      InsertIsStable(Build(front), last);
      forall n: uint16 ensures WithNumber(Build(chains), n) == WithNumber(Flatten(chains), n) {
        WithNumberConcat(Build(front), last, n);
        WithNumberConcat(Flatten(front), last, n);
        assert WithNumber(Build(front), n) == WithNumber(Flatten(front), n);
        assert WithNumber(Insert(Build(front), last), n) == WithNumber(Build(front) + last, n);
      }
    }
  }

  // ---------- lookup ----------

  datatype Lookup = Missing | Found(index: nat)

  /** The cursor walk stops at the first number that is not below n. */
  function Find(os: seq<CoapOption>, n: uint16): (r: Lookup)
    ensures r.Found? ==> r.index < |os| && os[r.index].number == n
    ensures r.Found? ==> forall i :: 0 <= i < r.index ==> os[i].number < n
  {
    if os == [] || os[0].number > n then Missing
    else if os[0].number == n then Found(0)
    else
      match Find(os[1..], n)
      case Missing => Missing
      case Found(i) => Found(i + 1)
  }

  /** On any list, the walk finds option i exactly when every option before it is smaller. */
  lemma {:induction false} FindExact(os: seq<CoapOption>, n: uint16, k: nat)
    requires k < |os| && os[k].number == n
    ensures Find(os, n) == Found(k) <==> forall i :: 0 <= i < k ==> os[i].number < n
  {
    if k == 0 || os[0].number >= n {
    } else {
      FindExact(os[1..], n, k - 1);
      assert forall i :: 1 <= i < k ==> os[i] == os[1..][i - 1];
      assert (forall i :: 0 <= i < k ==> os[i].number < n) <== (forall i :: 0 <= i < k - 1 ==> os[1..][i].number < n);
    }
  }

  /** On a sorted list, the walk returns the first option of the number, or nothing
      exactly when there is none. */
  lemma {:induction false} FindOnSorted(os: seq<CoapOption>, n: uint16)
    requires Sorted(os)
    ensures Find(os, n) == Missing <==> WithNumber(os, n) == []
    ensures Find(os, n).Found? ==> os[Find(os, n).index] == WithNumber(os, n)[0]
  {
    WithNumberEmpty(os, n);
    if os == [] || os[0].number >= n {
    } else {
      FindOnSorted(os[1..], n);
    }
  }

  /** On a sorted list, the options of a found number stand together from there on. */
  lemma FindRun(os: seq<CoapOption>, n: uint16)
    requires Sorted(os) && Find(os, n).Found?
    ensures var k, u := Find(os, n).index, UpperBound(os, n);
            && k < u
            && os[k..u] == WithNumber(os, n)
            && forall i :: u <= i < |os| ==> os[i].number > n
  {
    var k, u := Find(os, n).index, UpperBound(os, n);
    assert k < u;
    forall i | k <= i < u ensures os[i].number == n {
      assert os[k].number <= os[i].number;
    }
    RunBetween(os, n, k, u);
  }

  lemma RunBetween(os: seq<CoapOption>, n: uint16, k: nat, u: nat)
    requires k <= u <= |os|
    requires forall i :: 0 <= i < |os| ==> (os[i].number == n <==> k <= i < u)
    ensures os[k..u] == WithNumber(os, n)
  {
    var low, mid, high := os[..k], os[k..u], os[u..];
    assert low + mid + high == os;
    WithNumberConcat(low + mid, high, n);
    WithNumberConcat(low, mid, n);
    WithNumberEmpty(low, n);
    WithNumberEmpty(high, n);
    WithNumberAll(mid, n);
  }

  lemma {:induction false} WithNumberAll(os: seq<CoapOption>, n: uint16)
    requires forall i :: 0 <= i < |os| ==> os[i].number == n
    ensures WithNumber(os, n) == os
  {
    if os == [] {
    } else {
      WithNumberAll(os[1..], n);
      assert os == [os[0]] + os[1..];
    }
  }

  /** After any run of single-number insertions, looking a number up gives the option of
      that number that was added first, or nothing exactly when none was added. */
  lemma FindAfterBuild(chains: seq<seq<CoapOption>>, n: uint16)
    requires forall i :: 0 <= i < |chains| ==> Uniform(chains[i])
    ensures Sorted(Build(chains))
    ensures Find(Build(chains), n) == Missing <==> WithNumber(Flatten(chains), n) == []
    ensures var r := Find(Build(chains), n);
            r.Found? ==> Build(chains)[r.index] == WithNumber(Flatten(chains), n)[0]
  {
    BuildIsStableSort(chains);
    FindOnSorted(Build(chains), n);
    assert WithNumber(Build(chains), n) == WithNumber(Flatten(chains), n);
  }
}
