/**
 * The skeletal algorithms of AbstractIntCollection.  The concrete collection is
 * seen only through its iterator: the model takes the sequence of ints that
 * iterator yields (`items`) and, for toArray, the possibly stale `size()`
 * estimate as inputs.  Operations that remove through `Iterator.remove`
 * belong to a class whose `items` field is that iteration sequence.
 */
module IntCollections {
  import opened Wrappers

  /** Integer.MAX_VALUE. */
  const MAX_VALUE: int := 0x7fff_ffff

  predicate IsInt32(x: int) { -0x8000_0000 <= x <= MAX_VALUE }

  /** Two's complement wrap-around of a Java `int` computation. */
  function Wrap32(x: int): (r: int)
    ensures IsInt32(r)
    ensures (r - x) % 0x1_0000_0000 == 0
    ensures IsInt32(x) ==> r == x
  {
    var m := x % 0x1_0000_0000;
    if m > MAX_VALUE then m - 0x1_0000_0000 else m
  }

  /**
   * increaseCapacity: grow by about one half.  Java evaluates
   * ((cap / 2) + 1) * 3 in 32-bit arithmetic; `/` truncates, which equals
   * Dafny's division because an array length is never negative.
   */
  function IncreaseCapacity(cap: int): (r: Result<int>)
    requires 0 <= cap <= MAX_VALUE
    ensures r.Err? <==> cap == MAX_VALUE
    ensures r.Err? ==> r.error == OutOfMemory
    ensures r.Ok? ==> cap < r.value <= MAX_VALUE
    ensures ((cap / 2) + 1) * 3 <= MAX_VALUE ==> r == Ok(((cap / 2) + 1) * 3)
    ensures ((cap / 2) + 1) * 3 > MAX_VALUE && cap < MAX_VALUE ==> r == Ok(MAX_VALUE)
  {
    var newCap := Wrap32(((cap / 2) + 1) * 3);
    if newCap <= cap then
      if cap == MAX_VALUE then Err(OutOfMemory) else Ok(MAX_VALUE)
    else
      Ok(newCap)
  }

  /** Arrays.copyOf: a fresh array of length n, padded with zeros. */
  method CopyOf(a: array<int>, n: nat) returns (r: array<int>)
    ensures fresh(r) && r.Length == n
    ensures forall k :: 0 <= k < n ==> r[k] == if k < a.Length then a[k] else 0
  {
    r := new int[n];
    var k := 0;
    while k < n
      invariant 0 <= k <= n
      invariant forall j :: 0 <= j < k ==> r[j] == if j < a.Length then a[j] else 0
    {
      r[k] := if k < a.Length then a[k] else 0;
      k := k + 1;
    }
  }

  /**
   * finishToArray: append the iterator's remaining elements `rest` to the full
   * array `r0`, growing by IncreaseCapacity, and trim to the exact count.
   * The array cannot outgrow Integer.MAX_VALUE: then OutOfMemoryError.
   */
  method FinishToArray(r0: array<int>, rest: seq<int>) returns (res: Result<array<int>>)
    requires r0.Length <= MAX_VALUE
    ensures res.Ok? <==> r0.Length + |rest| <= MAX_VALUE
    ensures res.Err? ==> res.error == OutOfMemory
    ensures res.Ok? ==> res.value[..] == r0[..] + rest
  {
    var r := r0;
    var i := r.Length;
    var j := 0;
    while j < |rest|
      invariant 0 <= j <= |rest|
      invariant i == r0.Length + j <= r.Length <= MAX_VALUE
      invariant r[..i] == r0[..] + rest[..j]
      invariant i == r.Length || fresh(r)
    {
      var cap := r.Length;
      if i == cap {
        var newCap := IncreaseCapacity(cap);
        if newCap.Err? {
          return Err(newCap.error);
        }
        r := CopyOf(r, newCap.value);
        assert r[..i] == old(r0[..]) + rest[..j];
      }
      r[i] := rest[j];
      assert rest[..j + 1] == rest[..j] + [rest[j]];
      i, j := i + 1, j + 1;
    }
    assert rest[..j] == rest;
    if i == r.Length {
      assert r[..] == r[..i];
      return Ok(r);
    }
    var trimmed := CopyOf(r, i);
    assert trimmed[..] == r[..i];
    return Ok(trimmed);
  }

  /**
   * toArray(): allocate `size` slots (the collection's own, possibly stale,
   * estimate), fill them from the iterator, trim when it yields fewer and
   * continue in finishToArray when it yields more.
   */
  method ToArray(size: nat, items: seq<int>) returns (res: Result<array<int>>)
    requires size <= MAX_VALUE
    ensures res.Ok? <==> |items| <= MAX_VALUE
    ensures res.Err? ==> res.error == OutOfMemory
    ensures res.Ok? ==> res.value[..] == items
  {
    var r := new int[size];
    var i := 0;
    while i < r.Length
      invariant 0 <= i <= r.Length == size
      invariant i <= |items|
      invariant r[..i] == items[..i]
    {
      if i == |items| {
        var trimmed := CopyOf(r, i);
        assert trimmed[..] == r[..i];
        assert items[..i] == items;
        return Ok(trimmed);
      }
      r[i] := items[i];
      assert items[..i + 1] == items[..i] + [items[i]];
      i := i + 1;
    }
    assert r[..] == items[..i];
    if i < |items| {
      assert items == items[..i] + items[i..];
      res := FinishToArray(r, items[i..]);
    } else {
      assert items[..i] == items;
      res := Ok(r);
    }
  }

  /**
   * toArray(a): reuse `a` when it is at least `size` long, otherwise start
   * from a fresh array of `size` slots.  When `a` is reused and the iterator
   * runs out early, the slot after the last element is set to 0 and the rest
   * of `a` is left as it was.
   */
  method ToArrayInto(a: array<int>, size: nat, items: seq<int>) returns (res: Result<array<int>>)
    requires size <= MAX_VALUE && a.Length <= MAX_VALUE
    modifies a
    ensures res.Ok? <==> |items| <= MAX_VALUE
    ensures res.Err? ==> res.error == OutOfMemory
    ensures res.Ok? ==> |items| <= res.value.Length && res.value[..|items|] == items
    ensures res.Ok? && res.value != a ==> res.value.Length == |items|
    ensures res.Ok? && res.value.Length > |items| ==>
              res.value == a && a[|items|] == 0 && a[|items| + 1..] == old(a[|items| + 1..])
    ensures size <= a.Length && |items| <= a.Length ==> res == Ok(a)
  {
    var r := a;
    if a.Length < size {
      r := new int[size];
    }
    var i := 0;
    while i < r.Length
      invariant 0 <= i <= r.Length
      invariant i <= |items|
      invariant r == a || (fresh(r) && r.Length == size && size > a.Length)
      invariant r[..i] == items[..i]
      invariant r == a ==> a[i..] == old(a[i..])
    {
      if i == |items| {
        assert items[..i] == items;
        if a != r {
          var trimmed := CopyOf(r, i);
          assert trimmed[..] == r[..i];
          return Ok(trimmed);
        }
        r[i] := 0;
        assert r[..i] == items;
        assert r[i + 1..] == old(r[i + 1..]);
        return Ok(r);
      }
      r[i] := items[i];
      assert items[..i + 1] == items[..i] + [items[i]];
      i := i + 1;
    }
    assert r[..] == items[..i];
    if i < |items| {
      assert items == items[..i] + items[i..];
      res := FinishToArray(r, items[i..]);
    } else {
      assert items[..i] == items;
      res := Ok(r);
    }
  }

  // ---------------------------------------------------------------------
  // Queries over the iteration sequence

  /** contains(o): scan the iterator until an element equals `o`. */
  method Contains(items: seq<int>, o: int) returns (found: bool)
    ensures found <==> o in items
  {
    var i := 0;
    while i < |items|
      invariant 0 <= i <= |items|
      invariant o !in items[..i]
    {
      if o == items[i] {
        return true;
      }
      assert items[..i + 1] == items[..i] + [items[i]];
      i := i + 1;
    }
    assert items[..i] == items;
    return false;
  }

  /** containsAll(c): every element `c` iterates is contained. */
  method ContainsAll(items: seq<int>, c: seq<int>) returns (all: bool)
    ensures all <==> forall x :: x in c ==> x in items
  {
    var i := 0;
    while i < |c|
      invariant 0 <= i <= |c|
      invariant forall j :: 0 <= j < i ==> c[j] in items
    {
      var found := Contains(items, c[i]);
      if !found {
        return false;
      }
      i := i + 1;
    }
    return true;
  }

  // ---------------------------------------------------------------------
  // Adding: the skeletal class itself refuses every element

  /** add(e) in this class: always UnsupportedOperationException. */
  function Add(e: int): Result<bool>
  {
    Err(UnsupportedOperation)
  }

  /**
   * addAll(c): `modified |= add(e)` for every element of `c`; the first
   * exception propagates.  `add` is the element-wise outcome of the concrete
   * collection's add (Add above when it is not overridden).
   */
  method AddAll(c: seq<int>, add: int -> Result<bool>) returns (r: Result<bool>)
    ensures r.Ok? <==> forall i :: 0 <= i < |c| ==> add(c[i]).Ok?
    ensures r.Ok? ==> (r.value <==> exists i :: 0 <= i < |c| && add(c[i]) == Ok(true))
    ensures r.Err? ==> exists i :: 0 <= i < |c| && add(c[i]) == r &&
                          forall j :: 0 <= j < i ==> add(c[j]).Ok?
  {
    var modified := false;
    var i := 0;
    while i < |c|
      invariant 0 <= i <= |c|
      invariant forall j :: 0 <= j < i ==> add(c[j]).Ok?
      invariant modified <==> exists j :: 0 <= j < i && add(c[j]) == Ok(true)
    {
      var outcome := add(c[i]);
      if outcome.Err? {
        return Err(outcome.error);
      }
      modified := modified || outcome.value;
      i := i + 1;
    }
    return Ok(modified);
  }

  /**
   * addAll(int[]): false for an empty array; otherwise add every element,
   * ignore what add returned, and answer true.
   */
  method AddAllArray(a: array<int>, add: int -> Result<bool>) returns (r: Result<bool>)
    ensures r.Ok? <==> forall i :: 0 <= i < a.Length ==> add(a[i]).Ok?
    ensures r.Ok? ==> r.value == (a.Length > 0)
    ensures r.Err? ==> exists i :: 0 <= i < a.Length && add(a[i]) == r &&
                          forall j :: 0 <= j < i ==> add(a[j]).Ok?
  {
    if a.Length <= 0 {
      return Ok(false);
    }
    var i := 0;
    while i < a.Length
      invariant 0 <= i <= a.Length
      invariant forall j :: 0 <= j < i ==> add(a[j]).Ok?
    {
      var outcome := add(a[i]);
      if outcome.Err? {
        return Err(outcome.error);
      }
      i := i + 1;
    }
    return Ok(true);
  }

  // ---------------------------------------------------------------------
  // Removal: specification functions and their properties

  /** The sequence with the first occurrence of `o` taken out. */
  function RemoveFirst(s: seq<int>, o: int): seq<int>
  {
    if s == [] then []
    else if s[0] == o then s[1..]
    else [s[0]] + RemoveFirst(s[1..], o)
  }

  /** The elements of `s` whose membership in `c` equals `inside`, in order. */
  function Select(s: seq<int>, c: seq<int>, inside: bool): seq<int>
  {
    if s == [] then []
    else Select(s[..|s| - 1], c, inside) + (if (s[|s| - 1] in c) == inside then [s[|s| - 1]] else [])
  }

  /** Extending the scanned prefix by one element. */
  lemma SelectStep(s: seq<int>, k: nat, c: seq<int>, inside: bool)
    requires k < |s|
    ensures Select(s[..k + 1], c, inside) ==
              Select(s[..k], c, inside) + (if (s[k] in c) == inside then [s[k]] else [])
  {
    assert s[..k + 1][..k] == s[..k];
  }

  /**
   * One iterator step of removeAll/retainAll: the element at the cursor is
   * either removed or kept, and the scanned prefix grows by one.
   */
  lemma ScanStep(s: seq<int>, k: nat, c: seq<int>, keep: bool, rest: seq<int>, i: nat)
    requires k < |s|
    requires rest == Select(s[..k], c, keep) + s[k..]
    requires i == |Select(s[..k], c, keep)|
    ensures i < |rest| && rest[i] == s[k]
    ensures (s[k] in c) != keep ==> rest[..i] + rest[i + 1..] == Select(s[..k + 1], c, keep) + s[k + 1..]
    ensures (s[k] in c) != keep ==> i == |Select(s[..k + 1], c, keep)|
    ensures (s[k] in c) == keep ==> rest == Select(s[..k + 1], c, keep) + s[k + 1..]
    ensures (s[k] in c) == keep ==> i + 1 == |Select(s[..k + 1], c, keep)|
  {
    SelectStep(s, k, c, keep);
    var kept := Select(s[..k], c, keep);
    assert rest[i + 1..] == s[k + 1..];
    if (s[k] in c) != keep {
      assert rest[..i] == kept;
    } else {
      assert s[k..] == [s[k]] + s[k + 1..];
    }
  }

  /** Removing the first `o` found at index i cuts out exactly that index. */
  lemma {:induction false} RemoveFirstAt(s: seq<int>, o: int, i: nat)
    requires i < |s| && s[i] == o && o !in s[..i]
    ensures RemoveFirst(s, o) == s[..i] + s[i + 1..]
  {
    if i > 0 {
      assert s[1..][..i - 1] == s[1..i];
      assert o !in s[1..][..i - 1];
      RemoveFirstAt(s[1..], o, i - 1);
      assert [s[0]] + s[1..][..i - 1] == s[..i];
    }
  }

  /** Without an occurrence, nothing is removed. */
  lemma {:induction false} RemoveFirstAbsent(s: seq<int>, o: int)
    requires o !in s
    ensures RemoveFirst(s, o) == s
  {
    if s != [] {
      RemoveFirstAbsent(s[1..], o);
    }
  }

  /** remove(o) takes out exactly one copy of `o` when there is one. */
  lemma {:induction false} RemoveFirstMultiset(s: seq<int>, o: int)
    ensures multiset(RemoveFirst(s, o)) == multiset(s) - multiset{o}
  {
    if s != [] {
      assert s == [s[0]] + s[1..];
      if s[0] != o {
        RemoveFirstMultiset(s[1..], o);
      }
    }
  }

  /** Selection distributes over concatenation, so survivors keep their order. */
  lemma {:induction false} SelectAppend(s: seq<int>, t: seq<int>, c: seq<int>, inside: bool)
    ensures Select(s + t, c, inside) == Select(s, c, inside) + Select(t, c, inside)
    decreases |t|
  {
    if t == [] {
      assert s + t == s;
    } else {
      var t' := t[..|t| - 1];
      assert (s + t)[..|s + t| - 1] == s + t';
      SelectAppend(s, t', c, inside);
    }
  }

  /** An element survives iff it was present and its membership in `c` matches. */
  lemma {:induction false} SelectMembers(s: seq<int>, c: seq<int>, inside: bool, x: int)
    ensures x in Select(s, c, inside) <==> x in s && (x in c) == inside
  {
    if s != [] {
      var s' := s[..|s| - 1];
      assert s == s' + [s[|s| - 1]];
      SelectMembers(s', c, inside, x);
    }
  }

  /** Selection drops something iff some element's membership does not match. */
  lemma {:induction false} SelectShrinks(s: seq<int>, c: seq<int>, inside: bool)
    ensures |Select(s, c, inside)| <= |s|
    ensures |Select(s, c, inside)| < |s| <==> exists x :: x in s && (x in c) != inside
  {
    if s != [] {
      var s' := s[..|s| - 1];
      assert s == s' + [s[|s| - 1]];
      SelectShrinks(s', c, inside);
      if exists x :: x in s && (x in c) != inside {
        var x :| x in s && (x in c) != inside;
        if x != s[|s| - 1] {
          assert x in s';
        }
      }
    }
  }

  /** removeAll(c) and retainAll(c) split the collection between them. */
  lemma {:induction false} SelectPartition(s: seq<int>, c: seq<int>)
    ensures multiset(Select(s, c, true)) + multiset(Select(s, c, false)) == multiset(s)
  {
    if s != [] {
      var s' := s[..|s| - 1];
      assert s == s' + [s[|s| - 1]];
      SelectPartition(s', c);
    }
  }

  /** The skeleton over a concrete collection whose iterator yields `items`. */
  class AbstractIntCollection {
    var items: seq<int>

    constructor (items: seq<int>)
      ensures this.items == items
    {
      this.items := items;
    }

    /** isEmpty(): whether size() is zero. */
    method IsEmpty() returns (b: bool)
      ensures b <==> items == []
    {
      b := |items| == 0;
    }

    /** remove(o): remove through the iterator at the first equal element. */
    method Remove(o: int) returns (removed: bool)
      modifies this
      ensures removed <==> o in old(items)
      ensures items == RemoveFirst(old(items), o)
    {
      var i := 0;
      while i < |items|
        invariant 0 <= i <= |items|
        invariant items == old(items)
        invariant o !in items[..i]
      {
        if o == items[i] {
          RemoveFirstAt(items, o, i);
          items := items[..i] + items[i + 1..];
          return true;
        }
        assert items[..i + 1] == items[..i] + [items[i]];
        i := i + 1;
      }
      assert items[..i] == items;
      RemoveFirstAbsent(items, o);
      return false;
    }

    /** Shared loop of removeAll (inside = true) and retainAll (inside = false). */
    method RemoveWhere(c: seq<int>, inside: bool) returns (modified: bool)
      modifies this
      ensures items == Select(old(items), c, !inside)
      ensures modified <==> exists x :: x in old(items) && (x in c) == inside
    {
      ghost var s := items;
      ghost var k := 0;
      var rest := items;  // the collection as the iterator sees it
      var i := 0;
      modified := false;
      while i < |rest|
        invariant 0 <= k <= |s|
        invariant rest == Select(s[..k], c, !inside) + s[k..]
        invariant i == |Select(s[..k], c, !inside)|
        invariant i <= k && (modified <==> i < k)
        decreases |rest| - i
      {
        ScanStep(s, k, c, !inside, rest, i);
        if (rest[i] in c) == inside {
          rest := rest[..i] + rest[i + 1..];
          modified := true;
        } else {
          i := i + 1;
        }
        k := k + 1;
      }
      assert s[..k] == s;
      SelectShrinks(s, c, !inside);
      items := rest;
    }

    /** removeAll(c): drop every element `c` contains. */
    method RemoveAll(c: seq<int>) returns (modified: bool)
      modifies this
      ensures items == Select(old(items), c, false)
      ensures modified <==> exists x :: x in old(items) && x in c
    {
      modified := RemoveWhere(c, true);
    }

    /** retainAll(c): drop every element `c` does not contain. */
    method RetainAll(c: seq<int>) returns (modified: bool)
      modifies this
      ensures items == Select(old(items), c, true)
      ensures modified <==> exists x :: x in old(items) && x !in c
    {
      modified := RemoveWhere(c, false);
    }

    /** clear(): remove every element through the iterator. */
    method Clear()
      modifies this
      ensures items == []
    {
      while |items| > 0
        decreases |items|
      {
        items := items[1..];
      }
    }
  }

  // ---------------------------------------------------------------------
  // String conversion

  function DigitChar(d: nat): char
    requires d < 10
  {
    (48 + d) as char
  }

  predicate IsDigit(ch: char) { '0' <= ch <= '9' }

  function DigitValue(ch: char): nat
    requires IsDigit(ch)
  {
    ch as nat - 48
  }

  /** Integer.toString of a non-negative value: no sign, no leading zeros. */
  function Digits(n: nat): (s: string)
    ensures |s| >= 1 && forall i :: 0 <= i < |s| ==> IsDigit(s[i])
    ensures |s| > 1 ==> s[0] != '0'
  {
    if n < 10 then [DigitChar(n)] else Digits(n / 10) + [DigitChar(n % 10)]
  }

  /** Integer.toString, as StringBuilder.append(int) writes it. */
  function Decimal(n: int): string
  {
    if n < 0 then "-" + Digits(-n) else Digits(n)
  }

  /** The value of a string of decimal digits ("" reads as 0). */
  function ParseDigits(s: string): nat
  {
    if s == [] then 0
    else if IsDigit(s[|s| - 1]) then ParseDigits(s[..|s| - 1]) * 10 + DigitValue(s[|s| - 1])
    else ParseDigits(s[..|s| - 1]) * 10
  }

  /** The value of an optionally signed decimal numeral. */
  function ParseDecimal(s: string): int
  {
    if |s| > 0 && s[0] == '-' then 0 - ParseDigits(s[1..]) else ParseDigits(s)
  }

  lemma {:induction false} DigitsRoundTrip(n: nat)
    ensures ParseDigits(Digits(n)) == n
  {
    if n >= 10 {
      var d := Digits(n / 10) + [DigitChar(n % 10)];
      assert d[..|d| - 1] == Digits(n / 10);
      DigitsRoundTrip(n / 10);
    }
  }

  /** Reading back what Integer.toString wrote gives the value. */
  lemma DecimalRoundTrip(n: int)
    ensures ParseDecimal(Decimal(n)) == n
  {
    if n < 0 {
      var d := Digits(-n);
      assert Decimal(n) == "-" + d;
      assert ("-" + d)[0] == '-' && ("-" + d)[1..] == d;
      DigitsRoundTrip(-n);
    } else {
      DigitsRoundTrip(n);
    }
  }

  /** The elements, in iteration order, each followed by ", " except the last. */
  function Listing(s: seq<int>): string
  {
    if |s| == 0 then ""
    else if |s| == 1 then Decimal(s[0])
    else Decimal(s[0]) + ", " + Listing(s[1..])
  }

  /** What toString() returns: "[]" when empty, else "[" + elements + "]". */
  function Rendered(items: seq<int>): string
  {
    "[" + Listing(items) + "]"
  }

  lemma {:induction false} ListingSnoc(s: seq<int>, x: int)
    requires |s| > 0
    ensures Listing(s + [x]) == Listing(s) + ", " + Decimal(x)
  {
    var t := s + [x];
    var d, dx := Decimal(s[0]), Decimal(x);
    if |s| > 1 {
      assert t[0] == s[0] && t[1..] == s[1..] + [x];
      ListingSnoc(s[1..], x);
      var r := Listing(s[1..]);
      assert Listing(t) == d + ", " + (r + ", " + dx);
      SeparatorAssoc(d, r, dx);
    } else {
      assert t[0] == s[0] && t[1..] == [x];
    }
  }

  lemma SeparatorAssoc(d: string, r: string, dx: string)
    ensures d + ", " + (r + ", " + dx) == (d + ", " + r) + ", " + dx
  {
  }

  /** toString(): append "[", then each element, ", " between, then "]". */
  method ToString(items: seq<int>) returns (str: string)
    ensures str == Rendered(items)
  {
    if |items| == 0 {
      return "[]";
    }
    var sb := "[";
    var i := 0;
    while true
      invariant 0 <= i < |items|
      invariant sb == if i == 0 then "[" else "[" + Listing(items[..i]) + ", "
      decreases |items| - i
    {
      var e := items[i];
      ListingPrefix(items, i);
      sb := sb + Decimal(e);
      if i + 1 == |items| {
        assert items[..i + 1] == items;
        return sb + "]";
      }
      sb := sb + ", ";
      i := i + 1;
    }
  }

  /** The listing of a prefix grows by one element per iterator step. */
  lemma ListingPrefix(items: seq<int>, i: nat)
    requires i < |items|
    ensures (if i == 0 then "[" else "[" + Listing(items[..i]) + ", ") + Decimal(items[i])
            == "[" + Listing(items[..i + 1])
  {
    if i == 0 {
      assert Listing(items[..1]) == Decimal(items[0]);
    } else {
      assert items[..i + 1] == items[..i] + [items[i]];
      ListingSnoc(items[..i], items[i]);
    }
  }

  // Reading a rendered collection back: the partner of ToString.

  /** Index of the first ',' in `s`, or |s| when there is none. */
  function CommaAt(s: string): (j: nat)
    ensures j <= |s|
    ensures forall i :: 0 <= i < j ==> s[i] != ','
    ensures j < |s| ==> s[j] == ','
  {
    if s == [] then 0 else if s[0] == ',' then 0 else 1 + CommaAt(s[1..])
  }

  /** Split a listing at ", " and read every piece as a decimal. */
  function ParseListing(s: string): seq<int>
    decreases |s|
  {
    var j := CommaAt(s);
    if j + 2 <= |s| then [ParseDecimal(s[..j])] + ParseListing(s[j + 2..])
    else [ParseDecimal(s[..j])]
  }

  /** Read back the output of toString(). */
  function ParseRendered(s: string): seq<int>
  {
    if |s| < 2 || s == "[]" then [] else ParseListing(s[1..|s| - 1])
  }

  lemma DecimalHasNoComma(n: int)
    ensures |Decimal(n)| >= 1
    ensures forall i :: 0 <= i < |Decimal(n)| ==> Decimal(n)[i] != ','
  {
    var d := Digits(if n < 0 then -n else n);
    assert forall i :: 0 <= i < |d| ==> IsDigit(d[i]);
  }

  lemma CommaAfterDecimal(n: int, rest: string)
    ensures CommaAt(Decimal(n) + ", " + rest) == |Decimal(n)|
    ensures CommaAt(Decimal(n)) == |Decimal(n)|
  {
    DecimalHasNoComma(n);
    var t := Decimal(n) + ", " + rest;
    assert t[|Decimal(n)|] == ',';
    assert forall i :: 0 <= i < |Decimal(n)| ==> t[i] != ',';
  }

  lemma {:induction false} ListingRoundTrip(s: seq<int>)
    requires |s| > 0
    ensures ParseListing(Listing(s)) == s
  {
    var d := Decimal(s[0]);
    DecimalRoundTrip(s[0]);
    if |s| == 1 {
      CommaAfterDecimal(s[0], "");
      assert d[..|d|] == d;
    } else {
      var t := d + ", " + Listing(s[1..]);
      CommaAfterDecimal(s[0], Listing(s[1..]));
      assert t[..|d|] == d;
      assert t[|d| + 2..] == Listing(s[1..]);
      ListingRoundTrip(s[1..]);
    }
  }

  /** toString() loses nothing: the elements can be read back in order. */
  lemma RenderedRoundTrip(items: seq<int>)
    ensures ParseRendered(Rendered(items)) == items
    ensures items == [] <==> Rendered(items) == "[]"
  {
    if items != [] {
      DecimalHasNoComma(items[0]);
      var r := Rendered(items);
      assert |Listing(items)| >= 1 by {
        if |items| > 1 {
          assert Listing(items) == Decimal(items[0]) + ", " + Listing(items[1..]);
        }
      }
      assert r[1..|r| - 1] == Listing(items);
      ListingRoundTrip(items);
    }
  }
}
