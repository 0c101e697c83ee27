/** The list of all rearrangements of a list, from rad_util.py. */
module Permutations {
  import opened Lists

  ghost function Factorial(n: nat): nat {
    if n == 0 then 1 else n * Factorial(n - 1)
  }

  // In how many ways a list can be permuted onto itself: the product of the factorials of its
  // multiplicities, taken one item at a time.
  ghost function Symmetries<T>(s: seq<T>): nat {
    if s == [] then 1 else multiset(s)[s[0]] * Symmetries(s[1..])
  }

  // How often p is listed among the permutations of the input.
  ghost function Copies<T>(input: seq<T>, p: seq<T>): nat {
    if multiset(p) == multiset(input) then Symmetries(input) else 0
  }

  // Every rearrangement of the input is listed, each as often as the input has symmetries.
  method Permutations<T(==,!new)>(inputList: seq<T>) returns (outLists: seq<seq<T>>)
    ensures |outLists| == Factorial(|inputList|)
    ensures forall p :: multiset(outLists)[p] == Copies(inputList, p)
    ensures forall p :: p in outLists <==> multiset(p) == multiset(inputList)
    ensures NoDup(inputList) ==> NoDup(outLists)
    decreases |inputList|
  {
    hide Origins, Hits, Copies, Factorial;
    FactorialStep(|inputList|);
    outLists := [];
    if |inputList| > 1 {
      ghost var n := |inputList|;
      var item := inputList[0];
      var subLists := Permutations(inputList[1..]);
      assert forall p :: Origins(p, item, multiset(subLists[..0]), n) == 0 by { NoOrigins(item, n); }
      for a := 0 to |subLists|
        invariant |outLists| == a * n
        invariant forall p :: multiset(outLists)[p] == Origins(p, item, multiset(subLists[..a]), n)
      {
        var subList := subLists[a];
        ListedLength(subLists, subList, inputList[1..]);
        ghost var before := outLists;
        outLists := InsertEverywhere(outLists, subList, item);
        forall p ensures multiset(outLists)[p] == Origins(p, item, multiset(subLists[..a + 1]), n) {
          assert subLists[..a + 1] == subLists[..a] + [subList];
          OneMoreOrigin(p, item, multiset(subLists[..a]), subList, n);
        }
        assert (a + 1) * n == a * n + n;
      }
      forall p ensures multiset(outLists)[p] == Copies(inputList, p) {
        assert subLists[..|subLists|] == subLists;
        OriginsCounted(p, inputList, multiset(subLists));
      }
      assert |subLists| * n == n * Factorial(n - 1);
    } else {
      outLists := [inputList];
      forall p ensures multiset(outLists)[p] == Copies(inputList, p) {
        ShortRearrangement(inputList, p);
      }
    }
    PermutationsListed(inputList, outLists);
  }

  // Appends the lists that arise from inserting the item at each place of the sub-list.
  method InsertEverywhere<T(!new)>(lists: seq<seq<T>>, subList: seq<T>, item: T) returns (outLists: seq<seq<T>>)
    ensures |outLists| == |lists| + |subList| + 1
    ensures forall p :: multiset(outLists)[p] == multiset(lists)[p] + Hits(p, item, subList, |subList| + 1)
  {
    outLists := lists;
    for i := 0 to |subList| + 1
      invariant |outLists| == |lists| + i
      invariant forall p :: multiset(outLists)[p] == multiset(lists)[p] + Hits(p, item, subList, i)
    {
      var newList := subList[..i] + [item] + subList[i..];
      forall p ensures Hits(p, item, subList, i + 1) == Hits(p, item, subList, i) + if p == newList then 1 else 0 {
        InsertThenRemove(p, item, subList, i);
      }
      outLists := outLists + [newList];
    }
  }

  lemma FactorialStep(n: nat)
    ensures Factorial(n) == if n <= 1 then 1 else n * Factorial(n - 1)
  {
    assert n == 1 ==> Factorial(1) == 1 * Factorial(0);
  }

  ghost function Without<T>(p: seq<T>, k: nat): seq<T>
    requires k < |p|
  {
    p[..k] + p[k + 1..]
  }

  // At how many of the first i places inserting x into sub gives p.
  ghost function Hits<T>(p: seq<T>, x: T, sub: seq<T>, i: nat): nat {
    if i == 0 then 0
    else Hits(p, x, sub, i - 1)
         + if |p| == |sub| + 1 && i <= |p| && p[i - 1] == x && Without(p, i - 1) == sub then 1 else 0
  }

  // How many lists of the bag give p when x is inserted at one of the first n places.
  ghost function Origins<T>(p: seq<T>, x: T, bag: multiset<seq<T>>, n: nat): nat {
    if n == 0 then 0
    else Origins(p, x, bag, n - 1) + if n <= |p| && p[n - 1] == x then bag[Without(p, n - 1)] else 0
  }

  lemma NoOrigins<T(!new)>(x: T, n: nat)
    ensures forall p :: Origins(p, x, multiset{}, n) == 0
  {
    forall p ensures Origins(p, x, multiset{}, n) == 0 {
      NoOriginsOf(p, x, n);
    }
  }

  lemma {:induction false} NoOriginsOf<T>(p: seq<T>, x: T, n: nat)
    ensures Origins(p, x, multiset{}, n) == 0
  {
    if n > 0 {
      NoOriginsOf(p, x, n - 1);
    }
  }

  lemma InsertThenRemove<T>(p: seq<T>, x: T, sub: seq<T>, i: nat)
    requires i <= |sub|
    ensures p == sub[..i] + [x] + sub[i..] <==> |p| == |sub| + 1 && p[i] == x && Without(p, i) == sub
  {
    if |p| == |sub| + 1 {
      if p[i] == x && Without(p, i) == sub {
        assert p == p[..i] + [x] + p[i + 1..];
        assert sub[..i] == p[..i] && sub[i..] == p[i + 1..];
      }
    }
  }

  lemma {:induction false} OneMoreOrigin<T>(p: seq<T>, x: T, bag: multiset<seq<T>>, sub: seq<T>, n: nat)
    ensures Origins(p, x, bag + multiset{sub}, n) == Origins(p, x, bag, n) + Hits(p, x, sub, n)
  {
    if n > 0 {
      OneMoreOrigin(p, x, bag, sub, n - 1);
      if n <= |p| && p[n - 1] == x {
        assert Without(p, n - 1) == sub ==> |p| == |sub| + 1;
      }
    }
  }

  lemma ListedLength<T(!new)>(subLists: seq<seq<T>>, sub: seq<T>, rest: seq<T>)
    requires forall p :: multiset(subLists)[p] == Copies(rest, p)
    requires sub in subLists
    ensures |sub| == |rest|
  {
    assert multiset(subLists)[sub] > 0;
    assert |multiset(sub)| == |multiset(rest)|;
  }

  lemma {:induction false} OriginsCounted<T(!new)>(p: seq<T>, input: seq<T>, bag: multiset<seq<T>>)
    requires |input| > 1
    requires forall q :: bag[q] == Copies(input[1..], q)
    ensures Origins(p, input[0], bag, |input|) == Copies(input, p)
  {
    var n := |input|;
    assert input == [input[0]] + input[1..];
    if multiset(p) == multiset(input) {
      assert |p| == n by { assert |multiset(p)| == |multiset(input)|; }
      OriginsOfRearrangement(p, input, bag, n);
      assert p[..n] == p;
    } else {
      OriginsOfOther(p, input, bag, n);
    }
  }

  lemma WithoutBag<T>(p: seq<T>, k: nat)
    requires k < |p|
    ensures multiset(p) == multiset(Without(p, k)) + multiset{p[k]}
  {
    assert p == p[..k] + [p[k]] + p[k + 1..];
  }

  lemma {:induction false} OriginsOfRearrangement<T(!new)>(p: seq<T>, input: seq<T>, bag: multiset<seq<T>>, n: nat)
    requires |input| > 1 && multiset(p) == multiset(input) && n <= |p|
    requires forall q :: bag[q] == Copies(input[1..], q)
    ensures Origins(p, input[0], bag, n) == multiset(p[..n])[input[0]] * Symmetries(input[1..])
  {
    assert Origins(p, input[0], bag, 0) == 0 && p[..0] == [];
    hide Origins, Symmetries, Copies;
    if n > 0 {
      OriginsOfRearrangement(p, input, bag, n - 1);
      OneMorePlace(p, input, bag, n - 1);
    }
  }

  lemma OneMorePlace<T(!new)>(p: seq<T>, input: seq<T>, bag: multiset<seq<T>>, n: nat)
    requires |input| > 1 && multiset(p) == multiset(input) && n < |p|
    requires forall q :: bag[q] == Copies(input[1..], q)
    requires Origins(p, input[0], bag, n) == multiset(p[..n])[input[0]] * Symmetries(input[1..])
    ensures Origins(p, input[0], bag, n + 1) == multiset(p[..n + 1])[input[0]] * Symmetries(input[1..])
  {
    hide *;
    OneOrigin(p, input[0], bag, n);
    OneMoreCopy(p, input[0], n);
    if p[n] == input[0] {
      OriginCopies(p, input, bag, n);
      DistributeOne(multiset(p[..n])[input[0]], Symmetries(input[1..]));
    }
  }

  lemma OneMoreCopy<T>(p: seq<T>, x: T, n: nat)
    requires n < |p|
    ensures multiset(p[..n + 1])[x] == multiset(p[..n])[x] + if p[n] == x then 1 else 0
  {
    TakeOne(p, n);
  }

  lemma OriginCopies<T(!new)>(p: seq<T>, input: seq<T>, bag: multiset<seq<T>>, n: nat)
    requires input != [] && multiset(p) == multiset(input) && n < |p| && p[n] == input[0]
    requires bag[Without(p, n)] == Copies(input[1..], Without(p, n))
    ensures bag[Without(p, n)] == Symmetries(input[1..])
  {
    hide Symmetries;
    WithoutHead(p, input, n);
  }

  lemma OneOrigin<T(!new)>(p: seq<T>, x: T, bag: multiset<seq<T>>, n: nat)
    requires n < |p|
    ensures Origins(p, x, bag, n + 1) == Origins(p, x, bag, n) + if p[n] == x then bag[Without(p, n)] else 0
  {
  }

  lemma WithoutHead<T>(p: seq<T>, input: seq<T>, k: nat)
    requires input != [] && k < |p| && p[k] == input[0]
    ensures multiset(Without(p, k)) == multiset(input[1..]) <==> multiset(p) == multiset(input)
  {
    WithoutBag(p, k);
    assert input == [input[0]] + input[1..];
    var w, r, x := multiset(Without(p, k)), multiset(input[1..]), multiset{p[k]};
    assert w + x - x == w && r + x - x == r;
  }

  lemma DistributeOne(a: nat, b: nat)
    ensures (a + 1) * b == a * b + b
  {
  }

  lemma {:induction false} OriginsOfOther<T(!new)>(p: seq<T>, input: seq<T>, bag: multiset<seq<T>>, n: nat)
    requires |input| > 1 && multiset(p) != multiset(input)
    requires forall q :: bag[q] == Copies(input[1..], q)
    ensures Origins(p, input[0], bag, n) == 0
  {
    if n > 0 {
      OriginsOfOther(p, input, bag, n - 1);
      if n <= |p| && p[n - 1] == input[0] {
        WithoutHead(p, input, n - 1);
      }
    }
  }

  lemma ShortRearrangement<T>(s: seq<T>, p: seq<T>)
    requires |s| <= 1
    ensures multiset([s])[p] == Copies(s, p)
  {
    if |s| == 1 {
      assert s == [s[0]] && s[1..] == [] && Symmetries(s[1..]) == 1;
    }
    if multiset(p) == multiset(s) {
      assert |p| == |multiset(p)| == |multiset(s)| == |s|;
      if |s| == 1 {
        assert p == [p[0]] && s == [s[0]];
        assert p[0] in multiset(p);
      }
    }
  }

  lemma {:induction false} SymmetriesPositive<T>(s: seq<T>)
    ensures Symmetries(s) >= 1
  {
    if s != [] {
      SymmetriesPositive(s[1..]);
      assert s[0] in multiset(s);
    }
  }

  lemma {:induction false} DistinctHasOneSymmetry<T>(s: seq<T>)
    requires NoDup(s)
    ensures Symmetries(s) == 1
  {
    if s != [] {
      NoDupMultiplicity(s, s[0]);
      DistinctHasOneSymmetry(s[1..]);
    }
  }

  // Every rearrangement is listed and nothing else; of distinct items, each exactly once.
  lemma PermutationsListed<T(!new)>(input: seq<T>, outLists: seq<seq<T>>)
    requires forall p :: multiset(outLists)[p] == Copies(input, p)
    ensures forall p :: p in outLists <==> multiset(p) == multiset(input)
    ensures NoDup(input) ==> NoDup(outLists)
  {
    SymmetriesPositive(input);
    forall p ensures p in outLists <==> multiset(p) == multiset(input) {
      assert p in outLists <==> p in multiset(outLists);
    }
    if NoDup(input) {
      DistinctHasOneSymmetry(input);
      forall i, j | 0 <= i < j < |outLists| ensures outLists[i] != outLists[j] {
        TwiceListed(outLists, i, j);
      }
    }
  }

  lemma TwiceListed<T>(s: seq<T>, i: nat, j: nat)
    requires i < j < |s| && multiset(s)[s[i]] <= 1
    ensures s[i] != s[j]
  {
    assert s == s[..i] + [s[i]] + s[i + 1..j] + [s[j]] + s[j + 1..];
  }
}
