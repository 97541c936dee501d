/**
 * ServerBrowserFragment: the list of media servers on the network.
 *
 * The list holds one wrapper per device that offers a ContentDirectory,
 * kept sorted (stably) by the wrapper's label after every change.  Registry
 * events arrive one at a time as calls of the methods below.
 */
module ServerBrowser {
  import opened Wrappers
  import opened Upnp

  /** The list entry for a device. */
  datatype DeviceWrapper = DeviceWrapper(device: Device)

  /**
   * `toString`, the label: the device's friendly name (or display string),
   * followed by "*" exactly when the device is not fully hydrated.
   */
  function Label(w: DeviceWrapper): string
  {
    var name := DeviceName(w.device);
    if w.device.fullyHydrated then name else name + "*"
  }

  /** The label starts with the device's name and has one more character, a "*", exactly when the device is not fully hydrated. */
  lemma LabelShape(w: DeviceWrapper)
    ensures var name := DeviceName(w.device);
      && |Label(w)| == |name| + (if w.device.fullyHydrated then 0 else 1)
      && Label(w)[..|name|] == name
      && (!w.device.fullyHydrated ==> Label(w)[|Label(w)| - 1] == '*')
  {
  }

  /** `equals` (and `hashCode`): two wrappers are equal when their devices are, that is, have the same UDN. */
  predicate SameDevice(a: DeviceWrapper, b: DeviceWrapper)
  {
    a.device.udn == b.device.udn
  }

  // ---------------------------------------------------------------------------
  // String.compareTo and the comparator

  /**
   * A Java string is a sequence of UTF-16 code units: a character below
   * U+10000 is one unit, any other character a surrogate pair.
   */
  function CodeUnits(c: char): (u: seq<int>)
    ensures |u| == (if c as int < 0x1_0000 then 1 else 2)
    ensures forall i :: 0 <= i < |u| ==> 0 <= u[i] < 0x1_0000
  {
    var v := c as int;
    if v < 0x1_0000 then [v]
    else [0xD800 + (v - 0x1_0000) / 0x400, 0xDC00 + (v - 0x1_0000) % 0x400]
  }

  /** The UTF-16 code units of a string, in order. */
  function Utf16(s: string): seq<int>
    decreases |s|
  {
    if s == [] then [] else CodeUnits(s[0]) + Utf16(s[1..])
  }

  /** A character takes two code units exactly when its first one is a high surrogate. */
  lemma FirstUnitTellsLength(c: char)
    ensures |CodeUnits(c)| == 2 <==> 0xD800 <= CodeUnits(c)[0] < 0xDC00
  {
    var v := c as int;
    if 0x1_0000 <= v {
      assert (v - 0x1_0000) / 0x400 < 0x400;
    }
  }

  /** Different characters have different code units. */
  lemma CodeUnitsInjective(c: char, d: char)
    requires CodeUnits(c) == CodeUnits(d)
    ensures c == d
  {
    var v, w := c as int, d as int;
    if v < 0x1_0000 && w < 0x1_0000 {
      assert v == CodeUnits(c)[0] == CodeUnits(d)[0] == w;
    } else if 0x1_0000 <= v && 0x1_0000 <= w {
      var x, y := v - 0x1_0000, w - 0x1_0000;
      assert x / 0x400 == y / 0x400 && x % 0x400 == y % 0x400;
      assert x == 0x400 * (x / 0x400) + x % 0x400;
      assert y == 0x400 * (y / 0x400) + y % 0x400;
    }
  }

  /**
   * Different strings have different code units, so comparing code units
   * tells equal labels from different ones exactly.
   */
  lemma {:induction false} Utf16Injective(a: string, b: string)
    requires Utf16(a) == Utf16(b)
    ensures a == b
    decreases |a|
  {
    if a != [] && b != [] {
      var ua, ub := CodeUnits(a[0]), CodeUnits(b[0]);
      assert Utf16(a) == ua + Utf16(a[1..]);
      assert Utf16(b) == ub + Utf16(b[1..]);
      assert |ua| == |ub| by {
        FirstUnitTellsLength(a[0]);
        FirstUnitTellsLength(b[0]);
        assert ua[0] == Utf16(a)[0] == Utf16(b)[0] == ub[0];
      }
      assert ua == Utf16(a)[..|ua|] == Utf16(b)[..|ub|] == ub;
      CodeUnitsInjective(a[0], b[0]);
      assert Utf16(a[1..]) == Utf16(a)[|ua|..] == Utf16(b)[|ub|..] == Utf16(b[1..]);
      Utf16Injective(a[1..], b[1..]);
      assert a == [a[0]] + a[1..] && b == [b[0]] + b[1..];
    }
  }

  /**
   * Java's `String.compareTo`, on code units: the difference of the first
   * differing units, or else the difference of the lengths.
   */
  function CompareTo(a: seq<int>, b: seq<int>): int
    decreases |a|
  {
    if a == [] || b == [] then |a| - |b|
    else if a[0] != b[0] then a[0] - b[0]
    else CompareTo(a[1..], b[1..])
  }

  /** `compareTo` is zero exactly on equal code-unit sequences. */
  lemma {:induction false} CompareToZero(a: seq<int>, b: seq<int>)
    ensures CompareTo(a, b) == 0 <==> a == b
    decreases |a|
  {
    if a != [] && b != [] && a[0] == b[0] {
      CompareToZero(a[1..], b[1..]);
      assert a == [a[0]] + a[1..] && b == [b[0]] + b[1..];
    }
  }

  /** Swapping the arguments negates the result. */
  lemma {:induction false} CompareToAntisymmetric(a: seq<int>, b: seq<int>)
    ensures CompareTo(b, a) == -CompareTo(a, b)
    decreases |a|
  {
    if a != [] && b != [] && a[0] == b[0] {
      CompareToAntisymmetric(a[1..], b[1..]);
    }
  }

  /** "At most" under `compareTo` is transitive. */
  lemma {:induction false} CompareToTransitive(a: seq<int>, b: seq<int>, c: seq<int>)
    ensures CompareTo(a, b) <= 0 && CompareTo(b, c) <= 0 ==> CompareTo(a, c) <= 0
    decreases |a|
  {
    if a != [] && b != [] && c != [] && a[0] == b[0] && b[0] == c[0] {
      CompareToTransitive(a[1..], b[1..], c[1..]);
    }
  }

  /**
   * The order is that of code units, not of code points: a character outside
   * the Basic Multilingual Plane (U+1F600) sorts before U+FF5E, because its
   * first unit, the high surrogate 0xD83D, is smaller than 0xFF5E.
   */
  lemma SurrogatesSortBeforeHighBmp()
    ensures CompareTo(Utf16("\U{1F600}"), Utf16("\U{FF5E}")) < 0
    ensures CompareTo(['\U{1F600}' as int], ['\U{FF5E}' as int]) > 0
  {
    assert Utf16("\U{1F600}") == [0xD83D, 0xDE00];
    assert Utf16("\U{FF5E}") == [0xFF5E];
  }

  /** What the comparator compares: the code units of the label. */
  function SortKey(w: DeviceWrapper): seq<int>
  {
    Utf16(Label(w))
  }

  /** The comparator: `compare(a, b) <= 0`, that is `a.toString().compareTo(b.toString()) <= 0`. */
  predicate LabelLe(a: DeviceWrapper, b: DeviceWrapper)
  {
    CompareTo(SortKey(a), SortKey(b)) <= 0
  }

  ghost predicate SortedByLabel(s: seq<DeviceWrapper>)
  {
    forall i, j :: 0 <= i < j < |s| ==> LabelLe(s[i], s[j])
  }

  // ---------------------------------------------------------------------------
  // The stable sort

  /** Puts `w` before the first entry whose label is not below its own. */
  function InsertByLabel(w: DeviceWrapper, s: seq<DeviceWrapper>): seq<DeviceWrapper>
    decreases |s|
  {
    if s == [] || LabelLe(w, s[0]) then [w] + s else [s[0]] + InsertByLabel(w, s[1..])
  }

  /**
   * `sort(new DeviceWrapper.Comparator())`: a stable sort by label (entries
   * with equal labels keep their order); `StableSortUnique` shows that every
   * stable sort gives this same list.
   */
  function SortByLabel(s: seq<DeviceWrapper>): seq<DeviceWrapper>
    decreases |s|
  {
    if s == [] then [] else InsertByLabel(s[0], SortByLabel(s[1..]))
  }

  /** The entries of `s` with label `l`, in order. */
  function WithKey(s: seq<DeviceWrapper>, l: seq<int>): seq<DeviceWrapper>
    decreases |s|
  {
    if s == [] then [] else (if SortKey(s[0]) == l then [s[0]] else []) + WithKey(s[1..], l)
  }

  /** `r` is a stable sort of `s`: sorted, and for each label the entries with it appear in their order in `s`. */
  ghost predicate StablySorts(r: seq<DeviceWrapper>, s: seq<DeviceWrapper>)
  {
    SortedByLabel(r) && forall l :: WithKey(r, l) == WithKey(s, l)
  }

  lemma {:induction false} InsertByLabelContents(w: DeviceWrapper, s: seq<DeviceWrapper>)
    ensures multiset(InsertByLabel(w, s)) == multiset(s) + multiset{w}
    ensures |InsertByLabel(w, s)| == |s| + 1
    decreases |s|
  {
    if s != [] && !LabelLe(w, s[0]) {
      InsertByLabelContents(w, s[1..]);
      assert s == [s[0]] + s[1..];
    }
  }

  /** An entry at most every entry of a sorted list can go in front of it. */
  lemma ConsSorted(x: DeviceWrapper, t: seq<DeviceWrapper>)
    requires SortedByLabel(t) && forall y :: y in t ==> LabelLe(x, y)
    ensures SortedByLabel([x] + t)
  {
    var r := [x] + t;
    forall i, j | 0 <= i < j < |r| ensures LabelLe(r[i], r[j]) {
      if i == 0 {
        assert r[j] == t[j - 1];
      } else {
        assert r[i] == t[i - 1] && r[j] == t[j - 1];
      }
    }
  }

  /** An entry that sorts after the head of a sorted list is inserted among entries no smaller than the head. */
  lemma InsertedAfterHead(w: DeviceWrapper, s: seq<DeviceWrapper>)
    requires SortedByLabel(s) && s != [] && !LabelLe(w, s[0])
    ensures forall y :: y in InsertByLabel(w, s[1..]) ==> LabelLe(s[0], y)
  {
    InsertByLabelContents(w, s[1..]);
    CompareToAntisymmetric(SortKey(w), SortKey(s[0]));
    forall y | y in InsertByLabel(w, s[1..]) ensures LabelLe(s[0], y) {
      assert y in multiset(InsertByLabel(w, s[1..]));
      assert y in multiset(s[1..]) + multiset{w};
      if y != w {
        var k :| 0 <= k < |s[1..]| && s[1..][k] == y;
        assert s[k + 1] == y;
      }
    }
  }

  lemma {:induction false} InsertByLabelSorted(w: DeviceWrapper, s: seq<DeviceWrapper>)
    requires SortedByLabel(s)
    ensures SortedByLabel(InsertByLabel(w, s))
    decreases |s|
  {
    if s == [] || LabelLe(w, s[0]) {
      forall y | y in s ensures LabelLe(w, y) {
        var k :| 0 <= k < |s| && s[k] == y;
        if k > 0 {
          CompareToTransitive(SortKey(w), SortKey(s[0]), SortKey(s[k]));
        }
      }
      ConsSorted(w, s);
    } else {
      InsertByLabelSorted(w, s[1..]);
      InsertedAfterHead(w, s);
      ConsSorted(s[0], InsertByLabel(w, s[1..]));
    }
  }

  /** Inserting moves no entry past another with the same label. */
  lemma {:induction false} InsertByLabelStable(w: DeviceWrapper, s: seq<DeviceWrapper>, l: seq<int>)
    ensures WithKey(InsertByLabel(w, s), l) == (if SortKey(w) == l then [w] else []) + WithKey(s, l)
    decreases |s|
  {
    if s != [] && !LabelLe(w, s[0]) {
      var t := InsertByLabel(w, s[1..]);
      InsertByLabelStable(w, s[1..], l);
      CompareToZero(SortKey(w), SortKey(s[0]));
      var head := if SortKey(s[0]) == l then [s[0]] else [];
      assert InsertByLabel(w, s) == [s[0]] + t;
      assert ([s[0]] + t)[1..] == t;
      assert WithKey(InsertByLabel(w, s), l) == head + WithKey(t, l);
      assert WithKey(s, l) == head + WithKey(s[1..], l);
      assert SortKey(w) == l ==> head == [];
    } else {
      assert ([w] + s)[1..] == s;
    }
  }

  /** The sort yields a sorted permutation of its input that keeps equal labels in order. */
  lemma {:induction false} SortByLabelIsStableSort(s: seq<DeviceWrapper>)
    ensures StablySorts(SortByLabel(s), s)
    ensures multiset(SortByLabel(s)) == multiset(s) && |SortByLabel(s)| == |s|
    decreases |s|
  {
    if s != [] {
      var rest := SortByLabel(s[1..]);
      assert SortByLabel(s) == InsertByLabel(s[0], rest);
      SortByLabelIsStableSort(s[1..]);
      InsertByLabelSorted(s[0], rest);
      InsertByLabelContents(s[0], rest);
      forall l ensures WithKey(SortByLabel(s), l) == WithKey(s, l) {
        InsertByLabelStable(s[0], rest, l);
        assert WithKey(rest, l) == WithKey(s[1..], l);
        assert WithKey(s, l) == (if SortKey(s[0]) == l then [s[0]] else []) + WithKey(s[1..], l);
      }
      assert s == [s[0]] + s[1..];
    }
  }

  lemma {:induction false} WithKeyMembers(s: seq<DeviceWrapper>, l: seq<int>)
    ensures forall x :: x in WithKey(s, l) <==> x in s && SortKey(x) == l
    decreases |s|
  {
    if s != [] {
      WithKeyMembers(s[1..], l);
    }
  }

  /** Two sorted lists with the same entries per label start with the same entry. */
  lemma SameFirstEntry(r1: seq<DeviceWrapper>, r2: seq<DeviceWrapper>)
    requires SortedByLabel(r1) && SortedByLabel(r2) && r1 != [] && r2 != []
    requires forall l :: WithKey(r1, l) == WithKey(r2, l)
    ensures r1[0] == r2[0]
  {
    var l1, l2 := SortKey(r1[0]), SortKey(r2[0]);
    WithKeyMembers(r1, l2);
    WithKeyMembers(r2, l2);
    WithKeyMembers(r1, l1);
    WithKeyMembers(r2, l1);
    assert r2[0] in WithKey(r2, l2);
    var i :| 0 <= i < |r1| && r1[i] == r2[0];
    assert CompareTo(l1, l2) <= 0 by {
      if i > 0 { assert LabelLe(r1[0], r1[i]); }
      else { CompareToZero(l1, l2); }
    }
    assert r1[0] in WithKey(r1, l1);
    var j :| 0 <= j < |r2| && r2[j] == r1[0];
    assert CompareTo(l2, l1) <= 0 by {
      if j > 0 { assert LabelLe(r2[0], r2[j]); }
      else { CompareToZero(l2, l1); }
    }
    CompareToAntisymmetric(l1, l2);
    CompareToZero(l1, l2);
    assert r1[0] == WithKey(r1, l1)[0];
    assert r2[0] == WithKey(r2, l1)[0];
  }

  /** Dropping a common first entry keeps the entries per label equal. */
  lemma DropFirstEntry(r1: seq<DeviceWrapper>, r2: seq<DeviceWrapper>, l: seq<int>)
    requires r1 != [] && r2 != [] && r1[0] == r2[0]
    requires WithKey(r1, l) == WithKey(r2, l)
    ensures WithKey(r1[1..], l) == WithKey(r2[1..], l)
  {
    var t1, t2 := WithKey(r1[1..], l), WithKey(r2[1..], l);
    var w := WithKey(r1, l);
    if SortKey(r1[0]) == l {
      assert w == [r1[0]] + t1 && w == [r1[0]] + t2;
      assert t1 == w[1..] == t2;
    } else {
      assert w == [] + t1 && w == [] + t2;
      assert t1 == w == t2;
    }
  }

  lemma DropFirstEntries(r1: seq<DeviceWrapper>, r2: seq<DeviceWrapper>)
    requires r1 != [] && r2 != [] && r1[0] == r2[0]
    requires forall l :: WithKey(r1, l) == WithKey(r2, l)
    ensures forall l :: WithKey(r1[1..], l) == WithKey(r2[1..], l)
  {
    forall l ensures WithKey(r1[1..], l) == WithKey(r2[1..], l) {
      DropFirstEntry(r1, r2, l);
    }
  }

  /** A list with no entry under any label is empty. */
  lemma NoEntriesEmpty(r1: seq<DeviceWrapper>, r2: seq<DeviceWrapper>)
    requires r1 == []
    requires forall l :: WithKey(r1, l) == WithKey(r2, l)
    ensures r2 == []
  {
    LabelOfFirst(r2);
  }

  /** A non-empty list has an entry with the label of its first entry. */
  lemma LabelOfFirst(s: seq<DeviceWrapper>)
    ensures s != [] ==> WithKey(s, SortKey(s[0])) != []
  {
  }

  lemma SortedTail(r: seq<DeviceWrapper>)
    requires SortedByLabel(r) && r != []
    ensures SortedByLabel(r[1..])
  {
    forall i, j | 0 <= i < j < |r[1..]| ensures LabelLe(r[1..][i], r[1..][j]) {
      assert r[1..][i] == r[i + 1] && r[1..][j] == r[j + 1];
    }
  }

  /**
   * There is only one stable sort: any two sorted lists with the same entries
   * per label are equal.  So the insertion sort above stands for the library's
   * merge sort without loss.
   */
  lemma {:induction false} StableSortsAgree(r1: seq<DeviceWrapper>, r2: seq<DeviceWrapper>)
    requires SortedByLabel(r1) && SortedByLabel(r2)
    requires forall l :: WithKey(r1, l) == WithKey(r2, l)
    ensures r1 == r2
    decreases |r1|
  {
    if r1 == [] {
      NoEntriesEmpty(r1, r2);
    } else if r2 == [] {
      NoEntriesEmpty(r2, r1);
    } else {
      SameFirstEntry(r1, r2);
      DropFirstEntries(r1, r2);
      SortedTail(r1);
      SortedTail(r2);
      StableSortsAgree(r1[1..], r2[1..]);
      assert r1 == [r1[0]] + r1[1..] && r2 == [r2[0]] + r2[1..];
    }
  }

  /** Every stable sort of `s` by label is `SortByLabel(s)`. */
  lemma StableSortUnique(r: seq<DeviceWrapper>, s: seq<DeviceWrapper>)
    requires StablySorts(r, s)
    ensures r == SortByLabel(s)
  {
    SortByLabelIsStableSort(s);
    StableSortsAgree(r, SortByLabel(s));
  }

  /** A sorted list is its own stable sort, so sorting it again changes nothing. */
  lemma SortedIsFixed(s: seq<DeviceWrapper>)
    requires SortedByLabel(s)
    ensures SortByLabel(s) == s
  {
    StableSortUnique(s, s);
  }

  // ---------------------------------------------------------------------------
  // The list operations of ArrayAdapter

  /** `getPosition`: the index of the first entry equal to `w`, or -1. */
  function IndexOf(s: seq<DeviceWrapper>, w: DeviceWrapper): (i: int)
    ensures -1 <= i < |s|
    ensures 0 <= i ==> SameDevice(s[i], w)
    ensures forall k :: 0 <= k < |s| && (i < 0 || k < i) ==> !SameDevice(s[k], w)
    decreases |s|
  {
    if s == [] then -1
    else if SameDevice(s[0], w) then 0
    else
      var j := IndexOf(s[1..], w);
      if j < 0 then -1 else j + 1
  }

  /** The list without its entry at `p`. */
  function RemoveAt(s: seq<DeviceWrapper>, p: nat): seq<DeviceWrapper>
    requires p < |s|
  {
    s[..p] + s[p + 1..]
  }

  /** `remove`: drops the first entry equal to `w`, if there is one. */
  function RemoveFirst(s: seq<DeviceWrapper>, w: DeviceWrapper): seq<DeviceWrapper>
  {
    var p := IndexOf(s, w);
    if p < 0 then s else RemoveAt(s, p)
  }

  /** `insert`: puts `w` at index `p`, shifting the later entries up. */
  function InsertAt(s: seq<DeviceWrapper>, w: DeviceWrapper, p: nat): seq<DeviceWrapper>
    requires p <= |s|
  {
    s[..p] + [w] + s[p..]
  }

  /** The UDNs of the devices in the list. */
  function Udns(s: seq<DeviceWrapper>): set<string>
  {
    set x | x in s :: x.device.udn
  }

  /** No device appears twice (as judged by `equals`, that is by UDN). */
  ghost predicate NoDuplicates(s: seq<DeviceWrapper>)
  {
    forall i, j :: 0 <= i < j < |s| ==> !SameDevice(s[i], s[j])
  }

  /** Every listed device offers a ContentDirectory. */
  ghost predicate AllServeContent(s: seq<DeviceWrapper>)
  {
    forall x :: x in s ==> x.device.hasContentDirectory
  }

  /** What the list always satisfies between two events. */
  ghost predicate ListValid(s: seq<DeviceWrapper>)
  {
    SortedByLabel(s) && NoDuplicates(s) && AllServeContent(s)
  }

  /**
   * The list after `deviceAdded(d)` as a specification: a device without a
   * ContentDirectory is ignored; otherwise the entry equal to the new wrapper
   * is replaced by it where it stands, or the wrapper is appended, and the
   * result is sorted by label.
   */
  function AfterAdd(s: seq<DeviceWrapper>, d: Device): seq<DeviceWrapper>
  {
    if !d.hasContentDirectory then s
    else
      var w := DeviceWrapper(d);
      var p := IndexOf(s, w);
      SortByLabel(if 0 <= p then s[p := w] else s + [w])
  }

  /** The list after `deviceRemoved(d)`: the first equal entry (if any) removed, then sorted. */
  function AfterRemove(s: seq<DeviceWrapper>, d: Device): seq<DeviceWrapper>
  {
    SortByLabel(RemoveFirst(s, DeviceWrapper(d)))
  }

  /** The source's `remove` followed by `insert` at the old position replaces the entry in place. */
  lemma RemoveThenInsert(s: seq<DeviceWrapper>, w: DeviceWrapper)
    requires 0 <= IndexOf(s, w)
    ensures IndexOf(s, w) <= |RemoveFirst(s, w)|
    ensures InsertAt(RemoveFirst(s, w), w, IndexOf(s, w)) == s[IndexOf(s, w) := w]
  {
    var p := IndexOf(s, w);
    assert RemoveFirst(s, w) == RemoveAt(s, p);
    RemoveAtThenInsert(s, p, w);
  }

  lemma RemoveAtThenInsert(s: seq<DeviceWrapper>, p: nat, w: DeviceWrapper)
    requires p < |s|
    ensures InsertAt(RemoveAt(s, p), w, p) == s[p := w]
  {
    var r := RemoveAt(s, p);
    assert r[..p] == s[..p] && r[p..] == s[p + 1..];
  }

  /** A device's UDN is listed exactly when `getPosition` finds it. */
  lemma IndexOfFinds(s: seq<DeviceWrapper>, w: DeviceWrapper)
    ensures 0 <= IndexOf(s, w) <==> w.device.udn in Udns(s)
  {
    if w.device.udn in Udns(s) {
      var x :| x in s && x.device.udn == w.device.udn;
      var k :| 0 <= k < |s| && s[k] == x;
      assert SameDevice(s[k], w);
    }
  }

  /** Lists with the same members list the same UDNs and keep the same device properties. */
  lemma SameMembers(a: seq<DeviceWrapper>, b: seq<DeviceWrapper>)
    requires multiset(a) == multiset(b)
    ensures forall x :: x in a <==> x in b
    ensures Udns(a) == Udns(b)
    ensures AllServeContent(a) <==> AllServeContent(b)
  {
    assert forall x :: x in a <==> x in multiset(a);
    assert forall x :: x in b <==> x in multiset(b);
  }

  /** Putting a device not yet listed in front keeps a list duplicate-free. */
  lemma ConsNoDuplicates(x: DeviceWrapper, t: seq<DeviceWrapper>)
    requires NoDuplicates(t)
    requires forall y :: y in t ==> !SameDevice(x, y)
    ensures NoDuplicates([x] + t)
  {
    var r := [x] + t;
    forall i, j | 0 <= i < j < |r| ensures !SameDevice(r[i], r[j]) {
      if i == 0 {
        assert r[j] == t[j - 1];
      } else {
        assert r[i] == t[i - 1] && r[j] == t[j - 1];
      }
    }
  }

  lemma InsertByLabelMembers(w: DeviceWrapper, s: seq<DeviceWrapper>)
    ensures forall x :: x in InsertByLabel(w, s) <==> x == w || x in s
  {
    InsertByLabelContents(w, s);
    assert forall x :: x in InsertByLabel(w, s) <==> x in multiset(InsertByLabel(w, s));
    assert forall x :: x in s <==> x in multiset(s);
  }

  lemma {:induction false} InsertByLabelNoDuplicates(w: DeviceWrapper, s: seq<DeviceWrapper>)
    requires NoDuplicates(s)
    requires forall x :: x in s ==> !SameDevice(x, w)
    ensures NoDuplicates(InsertByLabel(w, s))
    decreases |s|
  {
    if s == [] || LabelLe(w, s[0]) {
      ConsNoDuplicates(w, s);
    } else {
      assert NoDuplicates(s[1..]);
      InsertByLabelNoDuplicates(w, s[1..]);
      InsertByLabelMembers(w, s[1..]);
      forall x | x in s[1..] ensures !SameDevice(s[0], x) {
        var k :| 0 <= k < |s[1..]| && s[1..][k] == x;
        assert s[k + 1] == x;
      }
      ConsNoDuplicates(s[0], InsertByLabel(w, s[1..]));
    }
  }

  /** Sorting keeps a duplicate-free list duplicate-free. */
  lemma {:induction false} SortByLabelNoDuplicates(s: seq<DeviceWrapper>)
    requires NoDuplicates(s)
    ensures NoDuplicates(SortByLabel(s))
    decreases |s|
  {
    if s != [] {
      assert NoDuplicates(s[1..]);
      SortByLabelNoDuplicates(s[1..]);
      SortByLabelIsStableSort(s[1..]);
      SameMembers(SortByLabel(s[1..]), s[1..]);
      forall x | x in SortByLabel(s[1..]) ensures !SameDevice(x, s[0]) {
        var k :| 0 <= k < |s[1..]| && s[1..][k] == x;
        assert s[k + 1] == x;
      }
      InsertByLabelNoDuplicates(s[0], SortByLabel(s[1..]));
    }
  }

  /** Sorting keeps what `ListValid` asks of the entries and the UDNs, and adds sortedness. */
  lemma SortKeeps(u: seq<DeviceWrapper>)
    requires NoDuplicates(u) && AllServeContent(u)
    ensures ListValid(SortByLabel(u))
    ensures Udns(SortByLabel(u)) == Udns(u)
    ensures multiset(SortByLabel(u)) == multiset(u) && |SortByLabel(u)| == |u|
  {
    SortByLabelIsStableSort(u);
    SortByLabelNoDuplicates(u);
    SameMembers(SortByLabel(u), u);
  }

  /** Replacing an entry by an equal wrapper keeps the list duplicate-free and its UDNs. */
  lemma ReplaceKeeps(s: seq<DeviceWrapper>, p: nat, w: DeviceWrapper)
    requires p < |s| && SameDevice(s[p], w) && w.device.hasContentDirectory
    requires NoDuplicates(s) && AllServeContent(s)
    ensures NoDuplicates(s[p := w]) && AllServeContent(s[p := w])
    ensures Udns(s[p := w]) == Udns(s)
  {
    var r := s[p := w];
    forall x | x in r ensures x.device.hasContentDirectory {
      var k :| 0 <= k < |r| && r[k] == x;
      if k != p { assert x == s[k]; }
    }
    forall u | u in Udns(r) ensures u in Udns(s) {
      var x :| x in r && x.device.udn == u;
      var k :| 0 <= k < |r| && r[k] == x;
      if k == p { assert s[p] in s; } else { assert s[k] in s; }
    }
    forall u | u in Udns(s) ensures u in Udns(r) {
      var x :| x in s && x.device.udn == u;
      var k :| 0 <= k < |s| && s[k] == x;
      if k == p { assert r[p] in r; } else { assert r[k] in r; }
    }
  }

  /** Appending a device not yet listed keeps the list duplicate-free and adds its UDN. */
  lemma AppendKeeps(s: seq<DeviceWrapper>, w: DeviceWrapper)
    requires w.device.udn !in Udns(s) && w.device.hasContentDirectory
    requires NoDuplicates(s) && AllServeContent(s)
    ensures NoDuplicates(s + [w]) && AllServeContent(s + [w])
    ensures Udns(s + [w]) == Udns(s) + {w.device.udn}
  {
    var r := s + [w];
    forall i, j | 0 <= i < j < |r| ensures !SameDevice(r[i], r[j]) {
      if j == |s| {
        assert r[i] in s;
      }
    }
    assert forall x :: x in r <==> x in s || x == w;
  }

  /**
   * `deviceAdded` keeps the list sorted, duplicate-free and limited to
   * content servers; a server's UDN joins the listed ones, and the list grows
   * by one exactly when the UDN was not listed before; the new wrapper is in
   * the list.  A device without a ContentDirectory changes nothing.
   */
  lemma AddKeepsValid(s: seq<DeviceWrapper>, d: Device)
    requires ListValid(s)
    ensures ListValid(AfterAdd(s, d))
    ensures !d.hasContentDirectory ==> AfterAdd(s, d) == s
    ensures d.hasContentDirectory ==>
      && Udns(AfterAdd(s, d)) == Udns(s) + {d.udn}
      && |AfterAdd(s, d)| == |s| + (if d.udn in Udns(s) then 0 else 1)
      && DeviceWrapper(d) in AfterAdd(s, d)
  {
    if d.hasContentDirectory {
      var w := DeviceWrapper(d);
      var p := IndexOf(s, w);
      IndexOfFinds(s, w);
      var u := if 0 <= p then s[p := w] else s + [w];
      if 0 <= p {
        ReplaceKeeps(s, p, w);
        assert u[p] == w;
      } else {
        AppendKeeps(s, w);
        assert u[|s|] == w;
      }
      SortKeeps(u);
      assert w in multiset(u);
    }
  }

  lemma UpdateMultiset(s: seq<DeviceWrapper>, p: nat, w: DeviceWrapper)
    requires p < |s|
    ensures multiset(s[p := w]) == multiset(s) - multiset{s[p]} + multiset{w}
  {
    assert s == s[..p] + [s[p]] + s[p + 1..];
    assert s[p := w] == s[..p] + [w] + s[p + 1..];
  }

  lemma RemoveAtMultiset(s: seq<DeviceWrapper>, p: nat)
    requires p < |s|
    ensures multiset(RemoveAt(s, p)) == multiset(s) - multiset{s[p]}
  {
    assert s == s[..p] + [s[p]] + s[p + 1..];
  }

  /**
   * Re-adding a listed device (for instance once it is fully hydrated) swaps
   * its old entry for the new one and leaves every other entry in the list.
   */
  lemma RehydrateReplaces(s: seq<DeviceWrapper>, d: Device)
    requires d.hasContentDirectory && 0 <= IndexOf(s, DeviceWrapper(d))
    ensures multiset(AfterAdd(s, d)) == multiset(s) - multiset{s[IndexOf(s, DeviceWrapper(d))]} + multiset{DeviceWrapper(d)}
  {
    var w := DeviceWrapper(d);
    var p := IndexOf(s, w);
    assert AfterAdd(s, d) == SortByLabel(s[p := w]);
    SortByLabelIsStableSort(s[p := w]);
    UpdateMultiset(s, p, w);
  }

  /**
   * `deviceRemoved` drops exactly the entry equal to the device, if there is
   * one: the other entries stay.
   */
  lemma RemoveDropsEntry(s: seq<DeviceWrapper>, d: Device)
    ensures var p := IndexOf(s, DeviceWrapper(d));
      multiset(AfterRemove(s, d)) == if p < 0 then multiset(s) else multiset(s) - multiset{s[p]}
  {
    var w := DeviceWrapper(d);
    var p := IndexOf(s, w);
    SortByLabelIsStableSort(RemoveFirst(s, w));
    if 0 <= p {
      assert RemoveFirst(s, w) == RemoveAt(s, p);
      RemoveAtMultiset(s, p);
    }
  }

  /** Dropping one entry keeps a list duplicate-free and takes exactly that entry's UDN out. */
  lemma RemoveAtKeeps(s: seq<DeviceWrapper>, p: nat)
    requires p < |s| && NoDuplicates(s) && AllServeContent(s)
    ensures NoDuplicates(RemoveAt(s, p)) && AllServeContent(RemoveAt(s, p))
    ensures Udns(RemoveAt(s, p)) == Udns(s) - {s[p].device.udn}
  {
    var u := RemoveAt(s, p);
    assert |u| == |s| - 1;
    assert forall k :: 0 <= k < |u| ==> u[k] == s[if k < p then k else k + 1];
    forall i, j | 0 <= i < j < |u| ensures !SameDevice(u[i], u[j]) {
      assert u[i] == s[if i < p then i else i + 1];
      assert u[j] == s[if j < p then j else j + 1];
    }
    forall x | x in u ensures x in s {
      var k :| 0 <= k < |u| && u[k] == x;
      assert s[if k < p then k else k + 1] == x;
    }
    forall v | v in Udns(s) - {s[p].device.udn} ensures v in Udns(u) {
      var x :| x in s && x.device.udn == v;
      var k :| 0 <= k < |s| && s[k] == x;
      if k < p { assert u[k] == x; } else { assert u[k - 1] == x; }
    }
    forall v | v in Udns(u) ensures v != s[p].device.udn {
      var x :| x in u && x.device.udn == v;
      var k :| 0 <= k < |u| && u[k] == x;
      var k' := if k < p then k else k + 1;
      assert s[k'] == x && k' != p;
      if k' < p {
        assert !SameDevice(s[k'], s[p]);
      } else {
        assert !SameDevice(s[p], s[k']);
      }
    }
  }

  /**
   * `deviceRemoved` keeps the list valid and takes the device's UDN out of
   * the listed ones; removing a device that is not listed leaves a valid list
   * exactly as it was.
   */
  lemma RemoveKeepsValid(s: seq<DeviceWrapper>, d: Device)
    requires ListValid(s)
    ensures ListValid(AfterRemove(s, d))
    ensures Udns(AfterRemove(s, d)) == Udns(s) - {d.udn}
    ensures d.udn !in Udns(s) ==> AfterRemove(s, d) == s
  {
    var w := DeviceWrapper(d);
    var p := IndexOf(s, w);
    IndexOfFinds(s, w);
    if p < 0 {
      assert RemoveFirst(s, w) == s;
      SortedIsFixed(s);
      SortKeeps(s);
    } else {
      assert RemoveFirst(s, w) == RemoveAt(s, p);
      RemoveAtKeeps(s, p);
      SortKeeps(RemoveAt(s, p));
    }
  }

  // ---------------------------------------------------------------------------
  // Registry events and the replay of cached devices

  /** The registry callbacks the listener overrides. */
  datatype RegistryEvent =
    | RemoteDeviceDiscoveryStarted(device: Device)
    | RemoteDeviceDiscoveryFailed(device: Device)
    | RemoteDeviceAdded(device: Device)
    | RemoteDeviceRemoved(device: Device)
    | LocalDeviceAdded(device: Device)
    | LocalDeviceRemoved(device: Device)

  /** Discovery-started and added events go to `deviceAdded`; the others to `deviceRemoved`. */
  predicate RoutesToAdd(e: RegistryEvent)
  {
    e.RemoteDeviceDiscoveryStarted? || e.RemoteDeviceAdded? || e.LocalDeviceAdded?
  }

  function AfterEvent(s: seq<DeviceWrapper>, e: RegistryEvent): seq<DeviceWrapper>
  {
    if RoutesToAdd(e) then AfterAdd(s, e.device) else AfterRemove(s, e.device)
  }

  /** The list after a run of events, taken in order. */
  function AfterEvents(s: seq<DeviceWrapper>, es: seq<RegistryEvent>): seq<DeviceWrapper>
  {
    if es == [] then s else AfterEvent(AfterEvents(s, es[..|es| - 1]), es[|es| - 1])
  }

  /**
   * The UDNs of the content servers that a run of events leaves on the
   * network: an add event of a server brings its UDN in, a removal takes it out.
   */
  ghost function LiveUdns(es: seq<RegistryEvent>): set<string>
  {
    if es == [] then {}
    else
      var e, live := es[|es| - 1], LiveUdns(es[..|es| - 1]);
      if !RoutesToAdd(e) then live - {e.device.udn}
      else if e.device.hasContentDirectory then live + {e.device.udn}
      else live
  }

  /**
   * From the empty list, any run of events leaves a sorted, duplicate-free
   * list of content servers that lists exactly the live servers.
   */
  lemma {:induction false} EventsTrackLive(es: seq<RegistryEvent>)
    ensures ListValid(AfterEvents([], es))
    ensures Udns(AfterEvents([], es)) == LiveUdns(es)
  {
    if es != [] {
      var e := es[|es| - 1];
      EventsTrackLive(es[..|es| - 1]);
      if RoutesToAdd(e) {
        AddKeepsValid(AfterEvents([], es[..|es| - 1]), e.device);
      } else {
        RemoveKeepsValid(AfterEvents([], es[..|es| - 1]), e.device);
      }
    }
  }

  /** The list after `deviceAdded` of each device, in order. */
  function AddAll(s: seq<DeviceWrapper>, ds: seq<Device>): seq<DeviceWrapper>
  {
    if ds == [] then s else AfterAdd(AddAll(s, ds[..|ds| - 1]), ds[|ds| - 1])
  }

  /** The UDNs of the content servers among `ds`. */
  ghost function ServerUdns(ds: seq<Device>): set<string>
  {
    set d | d in ds && d.hasContentDirectory :: d.udn
  }

  /**
   * Replaying the registry's cached devices into the cleared list yields a
   * valid list of exactly the cached content servers.
   */
  lemma {:induction false} ReplayListsCachedServers(ds: seq<Device>)
    ensures ListValid(AddAll([], ds))
    ensures Udns(AddAll([], ds)) == ServerUdns(ds)
  {
    if ds != [] {
      var init, d := ds[..|ds| - 1], ds[|ds| - 1];
      ReplayListsCachedServers(init);
      AddKeepsValid(AddAll([], init), d);
      assert ds == init + [d];
      assert forall x :: x in ds <==> x in init || x == d;
      assert ServerUdns(ds) == ServerUdns(init) + (if d.hasContentDirectory then {d.udn} else {});
    }
  }

  // ---------------------------------------------------------------------------
  // The fragment

  class ServerBrowserFragment {
    /** The adapter's entries, in display order. */
    var devices: seq<DeviceWrapper>
    /** Both `getActivity()` and the interaction listener are set. */
    var attached: bool
    /** The UPnP service is bound (`mUpnpService` is set). */
    var connected: bool
    /** The registry listener is registered with the registry. */
    var listening: bool
    /** How many network searches the fragment has started. */
    var searches: nat

    ghost predicate Valid()
      reads this
    {
      ListValid(devices)
    }

    /** A fragment attached to its activity, with an empty list, waiting for the service. */
    constructor ()
      ensures Valid()
      ensures devices == [] && attached && !connected && !listening && searches == 0
    {
      devices := [];
      attached := true;
      connected := false;
      listening := false;
      searches := 0;
    }

    /**
     * `deviceAdded`: nothing happens while detached or for a device without a
     * ContentDirectory; otherwise an equal entry is removed and the new
     * wrapper inserted at its index, or the wrapper is appended, and the list
     * is sorted.
     */
    method DeviceAdded(d: Device)
      requires Valid()
      modifies this`devices
      ensures Valid()
      ensures devices == if attached then AfterAdd(old(devices), d) else old(devices)
    {
      if !attached {
        return;
      }
      if !d.hasContentDirectory {
        return;
      }
      AddKeepsValid(devices, d);
      var w := DeviceWrapper(d);
      var position := IndexOf(devices, w);
      if position >= 0 {
        RemoveThenInsert(devices, w);
        devices := RemoveFirst(devices, w);
        devices := InsertAt(devices, w, position);
      } else {
        devices := devices + [w];
      }
      devices := SortByLabel(devices);
    }

    /** `deviceRemoved`: while attached, the first equal entry is removed and the list sorted. */
    method DeviceRemoved(d: Device)
      requires Valid()
      modifies this`devices
      ensures Valid()
      ensures devices == if attached then AfterRemove(old(devices), d) else old(devices)
    {
      if attached {
        RemoveKeepsValid(devices, d);
        devices := RemoveFirst(devices, DeviceWrapper(d));
        devices := SortByLabel(devices);
      }
    }

    /** The listener's callbacks, each routed to `deviceAdded` or `deviceRemoved`. */
    method OnRegistryEvent(e: RegistryEvent)
      requires Valid()
      modifies this`devices
      ensures Valid()
      ensures devices == if attached then AfterEvent(old(devices), e) else old(devices)
    {
      match e
      case RemoteDeviceDiscoveryStarted(d) => DeviceAdded(d);
      case RemoteDeviceDiscoveryFailed(d) => DeviceRemoved(d);
      case RemoteDeviceAdded(d) => DeviceAdded(d);
      case RemoteDeviceRemoved(d) => DeviceRemoved(d);
      case LocalDeviceAdded(d) => DeviceAdded(d);
      case LocalDeviceRemoved(d) => DeviceRemoved(d);
    }

    /**
     * `onServiceConnected`: clears the list, registers the listener, replays
     * every device the registry already knows through `deviceAdded`, and
     * starts a search.
     */
    method OnServiceConnected(cached: seq<Device>)
      requires Valid()
      modifies this`devices, this`connected, this`listening, this`searches
      ensures Valid()
      ensures devices == if attached then AddAll([], cached) else []
      ensures connected && listening && searches == old(searches) + 1
    {
      connected := true;
      devices := [];
      listening := true;
      var i := 0;
      while i < |cached|
        invariant 0 <= i <= |cached|
        invariant Valid()
        invariant devices == if attached then AddAll([], cached[..i]) else []
        invariant connected && listening && searches == old(searches)
      {
        assert cached[..i + 1][..i] == cached[..i];
        DeviceAdded(cached[i]);
        i := i + 1;
      }
      assert cached[..|cached|] == cached;
      searches := searches + 1;
    }

    /** `onServiceDisconnected`: forgets the service. */
    method OnServiceDisconnected()
      modifies this`connected
      ensures !connected
    {
      connected := false;
    }

    /** `onDetach`: drops the listener and, when the service is bound, unregisters from the registry. */
    method OnDetach()
      modifies this`attached, this`listening
      ensures !attached
      ensures listening == (old(listening) && !connected)
    {
      attached := false;
      if connected {
        listening := false;
      }
    }

    /** `onItemClick`: reports the device of the clicked row, which always offers a ContentDirectory. */
    method OnItemClick(position: nat) returns (d: Device)
      requires Valid() && attached && position < |devices|
      ensures d == devices[position].device && d.hasContentDirectory
    {
      d := devices[position].device;
    }
  }
}
