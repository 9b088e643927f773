// The app-asn view of the free-resources page: the DN42 autonomous system
// numbers AS4242420000 .. AS4242423999 that no aut-num object claims.
module Asn {

  import opened Wrappers
  import opened Bits
  import opened Text
  import P4 = Prefixes4
  import V4 = FreeView4

  /** The name prefix shared by every DN42 ASN. */
  const DnPrefix: String := "AS424242"

  /** The numbers after the prefix that the view lists: [0, Range). */
  const Range: nat := 4000

  /** Whether the name is a DN42 ASN (`a.startsWith('AS424242')`). */
  predicate IsDn(a: String)
  {
    HasPrefix(a, DnPrefix)
  }

  /** `parseInt(a.substr(8))` for a DN42 name; None stands for NaN. */
  function NumberOf(a: String): Option<int>
    requires IsDn(a)
  {
    ParseInt(a[|DnPrefix|..])
  }

  /** The numbers marked in the `asn` array by the aut-num names. */
  function UsedNums(autnum: seq<String>): set<int>
  {
    if |autnum| == 0 then {}
    else
      var a := autnum[|autnum| - 1];
      UsedNums(autnum[..|autnum| - 1]) + (if IsDn(a) && NumberOf(a).Some? then {NumberOf(a).value} else {})
  }

  /** How many names carry the DN42 prefix, duplicates included. */
  function DnCount(autnum: seq<String>): nat
  {
    if |autnum| == 0 then 0
    else DnCount(autnum[..|autnum| - 1]) + (if IsDn(autnum[|autnum| - 1]) then 1 else 0)
  }

  /** A number is marked exactly when some DN42 name reads as it. */
  lemma {:induction false} UsedNumsSpec(autnum: seq<String>, n: int)
    ensures n in UsedNums(autnum) <==> exists i :: 0 <= i < |autnum| && IsDn(autnum[i]) && NumberOf(autnum[i]) == Some(n)
    decreases |autnum|
  {
    if |autnum| > 0 {
      var front := autnum[..|autnum| - 1];
      UsedNumsSpec(front, n);
      if n in UsedNums(autnum) && n !in UsedNums(front) {
        assert IsDn(autnum[|autnum| - 1]) && NumberOf(autnum[|autnum| - 1]) == Some(n);
      }
      if exists i :: 0 <= i < |autnum| && IsDn(autnum[i]) && NumberOf(autnum[i]) == Some(n) {
        var i :| 0 <= i < |autnum| && IsDn(autnum[i]) && NumberOf(autnum[i]) == Some(n);
        if i < |autnum| - 1 {
          assert front[i] == autnum[i];
        }
      }
    }
  }

  /** The count of DN42 names is the number of indices holding one. */
  lemma {:induction false} DnCountSpec(autnum: seq<String>)
    ensures DnCount(autnum) == |set i | 0 <= i < |autnum| && IsDn(autnum[i])|
    decreases |autnum|
  {
    if |autnum| > 0 {
      var n := |autnum| - 1;
      var front := autnum[..n];
      DnCountSpec(front);
      var s0 := set i | 0 <= i < n && IsDn(front[i]);
      var s1 := set i | 0 <= i < |autnum| && IsDn(autnum[i]);
      assert s0 == set i | 0 <= i < n && IsDn(autnum[i]);
      if IsDn(autnum[n]) {
        assert s1 == s0 + {n};
      } else {
        assert s1 == s0;
      }
    }
  }

  // ---------------------------------------------------------------------
  // The free list

  /** `while (str.length < 4) str = '0' + str`. */
  function ZeroPad(s: String): (r: String)
    ensures |r| >= 4 && |r| >= |s|
    decreases 4 - |s|
  {
    if |s| >= 4 then s else ZeroPad("0" + s)
  }

  /** The listed name of a number: the prefix and the number zero-padded to four digits. */
  function AsnName(a: nat): String
  {
    DnPrefix + ZeroPad(Decimal(a))
  }

  /** The numbers below n that no name marks, ascending. */
  function FreeNums(used: set<int>, n: nat): seq<nat>
  {
    if n == 0 then []
    else FreeNums(used, n - 1) + (if n - 1 in used then [] else [n - 1])
  }

  /** The names of the free numbers below n, in the same order. */
  function FreeNames(used: set<int>, n: nat): (r: seq<String>)
    ensures |r| == |FreeNums(used, n)|
  {
    if n == 0 then []
    else FreeNames(used, n - 1) + (if n - 1 in used then [] else [AsnName(n - 1)])
  }

  /** The names list the free numbers, position by position. */
  lemma {:induction false} FreeNamesAt(used: set<int>, n: nat, i: nat)
    requires i < |FreeNums(used, n)|
    ensures FreeNames(used, n)[i] == AsnName(FreeNums(used, n)[i])
    decreases n
  {
    if i < |FreeNums(used, n - 1)| {
      FreeNamesAt(used, n - 1, i);
    }
  }

  /** The free numbers below n are exactly the unmarked ones, strictly ascending. */
  lemma {:induction false} FreeNumsSpec(used: set<int>, n: nat)
    ensures forall x: int :: x in FreeNums(used, n) <==> 0 <= x < n && x !in used
    ensures forall i, j :: 0 <= i < j < |FreeNums(used, n)| ==> FreeNums(used, n)[i] < FreeNums(used, n)[j]
    decreases n
  {
    if n > 0 {
      var f := FreeNums(used, n - 1);
      var g := FreeNums(used, n);
      FreeNumsSpec(used, n - 1);
      assert g == f + (if n - 1 in used then [] else [n - 1]);
      forall x: int
        ensures x in g <==> 0 <= x < n && x !in used
      {
        assert x in g <==> x in f || (n - 1 !in used && x == n - 1);
      }
      forall i, j | 0 <= i < j < |g|
        ensures g[i] < g[j]
      {
        assert g[i] == f[i] && f[i] in f;
        if j < |f| {
          assert g[j] == f[j];
        }
      }
    }
  }

  /** One free number fewer for each marked number in range: the list has Range minus the marked count entries. */
  lemma {:induction false} FreeNumsCount(used: set<int>, n: nat)
    ensures |FreeNums(used, n)| + |set x | 0 <= x < n && x in used| == n
    decreases n
  {
    if n > 0 {
      FreeNumsCount(used, n - 1);
      var below := set x | 0 <= x < n - 1 && x in used;
      var upto := set x | 0 <= x < n && x in used;
      if n - 1 in used {
        assert upto == below + {n - 1};
      } else {
        assert upto == below;
      }
    }
  }

  /** A leading zero does not change the value of a run of decimal digits. */
  lemma {:induction false} LeadingZero(s: String)
    requires forall i :: 0 <= i < |s| ==> IsDigit(s[i])
    ensures forall i :: 0 <= i < |"0" + s| ==> IsDigit(("0" + s)[i])
    ensures DigitsValue("0" + s, 10) == DigitsValue(s, 10)
    decreases |s|
  {
    var z := "0" + s;
    if |s| == 0 {
      assert z[..0] == [];
    } else {
      LeadingZero(s[..|s| - 1]);
      assert z[..|z| - 1] == "0" + s[..|s| - 1];
    }
  }

  /** Zero padding keeps the digits and their value. */
  lemma {:induction false} ZeroPadValue(s: String)
    requires forall i :: 0 <= i < |s| ==> IsDigit(s[i])
    ensures forall i :: 0 <= i < |ZeroPad(s)| ==> IsDigit(ZeroPad(s)[i])
    ensures DigitsValue(ZeroPad(s), 10) == DigitsValue(s, 10)
    ensures |s| <= 4 ==> |ZeroPad(s)| == 4
    decreases 4 - |s|
  {
    if |s| < 4 {
      LeadingZero(s);
      ZeroPadValue("0" + s);
    }
  }

  /** Numbers below 10000 have at most four decimal digits. */
  lemma {:induction false} ShortDecimal(n: nat)
    requires n < 10000
    ensures |Decimal(n)| <= 4
    ensures n < 1000 ==> |Decimal(n)| <= 3
    ensures n < 100 ==> |Decimal(n)| <= 2
    ensures n < 10 ==> |Decimal(n)| == 1
    decreases n
  {
    if n >= 10 {
      ShortDecimal(n / 10);
    }
  }

  /**
   * A listed name is a DN42 name of four digits that reads back as its
   * number: processing a name the view offered marks that number used.
   */
  lemma NameRoundTrip(a: nat)
    requires a < Range
    ensures IsDn(AsnName(a)) && |AsnName(a)| == |DnPrefix| + 4
    ensures NumberOf(AsnName(a)) == Some(a)
  {
    var name := AsnName(a);
    var d := Decimal(a);
    ShortDecimal(a);
    DecimalDigits(a);
    ToDigitsSpec(a, 10);
    ZeroPadValue(d);
    var p := ZeroPad(d);
    assert name[..|DnPrefix|] == DnPrefix;
    assert name[|DnPrefix|..] == p;
    assert forall i :: 0 <= i < |p| ==> DigitValue(p[i], 10).Some?;
    ParseIntDigits(p);
  }

  /** Different numbers get different names. */
  lemma NamesDistinct(a: nat, b: nat)
    requires a < Range && b < Range && a != b
    ensures AsnName(a) != AsnName(b)
  {
    NameRoundTrip(a);
    NameRoundTrip(b);
  }

  // ---------------------------------------------------------------------
  // generate

  /** The ten draws of generate, each an index into the free list as Math.floor would give it; None for an empty list. */
  function AsnPicks(free: seq<String>, draws: seq<real>): (r: seq<Option<String>>)
    requires P4.Unit(draws) && |draws| >= 10
    ensures |r| == 10
    ensures |free| > 0 ==> forall i :: 0 <= i < 10 ==> r[i].Some? && r[i].value in free
    ensures |free| == 0 ==> forall i :: 0 <= i < 10 ==> r[i].None?
  {
    seq(10, i requires 0 <= i < 10 => if |free| == 0 then None else Some(free[FloorScaled(draws[i], |free|)]))
  }

  /** As written: `this.free[Math.round(Math.random() * this.free.length)]`, undefined past the end. */
  function PickAsWritten(free: seq<String>, r: real): Option<String>
    requires 0.0 <= r < 1.0
  {
    var k := RoundScaled(r, |free|);
    if k < |free| then Some(free[k]) else None
  }

  /** The source's rounding can pick one past the end of any non-empty list and offer undefined. */
  lemma PickAsWrittenOverruns(free: seq<String>)
    requires |free| > 0
    ensures PickAsWritten(free, 1.0 - 1.0 / (2 * |free|) as real) == None
  {
    RoundScaledOverruns(|free|);
  }

  // ---------------------------------------------------------------------
  // The view

  class AsnView {
    var state: V4.ViewState
    var free: seq<String>
    /** stats.alloc: never reset, so it keeps counting across reloads. */
    var alloc: nat
    var alist: seq<Option<String>>

    constructor()
      ensures state == V4.Invalid && free == [] && alloc == 0 && alist == []
    {
      state := V4.Invalid;
      free := [];
      alloc := 0;
      alist := [];
    }

    /** reload: empty the free list and wait for the aut-num list. */
    method Reload()
      modifies this`free, this`state
      ensures free == [] && state == V4.Loading
    {
      free := [];
      state := V4.Loading;
    }

    /**
     * processASN: mark the numbers the DN42 names use, append the free
     * names to the list, draw ten of them and show the view.
     */
    method ProcessASN(autnum: seq<String>, draws: seq<real>)
      requires P4.Unit(draws) && |draws| >= 10
      modifies this
      ensures alloc == old(alloc) + DnCount(autnum)
      ensures free == old(free) + FreeNames(UsedNums(autnum), Range)
      ensures alist == AsnPicks(free, draws) && state == V4.Ready
    {
      var used := MarkUsed(autnum);
      AppendFree(used);
      Generate(draws);
      state := V4.Ready;
    }

    /** The forEach over the aut-num names: the numbers they mark, and stats.alloc counting them. */
    method MarkUsed(autnum: seq<String>) returns (used: set<int>)
      modifies this`alloc
      ensures used == UsedNums(autnum) && alloc == old(alloc) + DnCount(autnum)
    {
      used := {};
      for i := 0 to |autnum|
        invariant used == UsedNums(autnum[..i]) && alloc == old(alloc) + DnCount(autnum[..i])
      {
        assert autnum[..i + 1][..i] == autnum[..i];
        var a := autnum[i];
        if HasPrefix(a, DnPrefix) {
          var num := ParseInt(a[8..]);
          if num.Some? {
            used := used + {num.value};
          }
          alloc := alloc + 1;
        }
      }
      assert autnum[..|autnum|] == autnum;
    }

    /** The loop over [0, 4000): push the zero-padded name of every unmarked number. */
    method AppendFree(used: set<int>)
      modifies this`free
      ensures free == old(free) + FreeNames(used, Range)
    {
      for a := 0 to Range
        invariant free == old(free) + FreeNames(used, a)
      {
        if a !in used {
          var str := Decimal(a);
          while |str| < 4
            invariant ZeroPad(str) == ZeroPad(Decimal(a))
            decreases 4 - |str|
          {
            str := "0" + str;
          }
          free := free + [DnPrefix + str];
        }
      }
    }

    /** generate: ten draws from the free list, with Math.floor in place of the source's Math.round. */
    method Generate(draws: seq<real>)
      requires P4.Unit(draws) && |draws| >= 10
      modifies this`alist
      ensures alist == AsnPicks(free, draws)
    {
      var nlist: seq<Option<String>> := [];
      for i := 0 to 10
        invariant nlist == AsnPicks(free, draws)[..i]
      {
        var pick := if |free| == 0 then None else Some(free[FloorScaled(draws[i], |free|)]);
        nlist := nlist + [pick];
      }
      alist := nlist;
    }
  }
}
