/**
 * The cart side of `POST /prepare`: the vendor eligibility map built from the
 * customer's vendor accounts, the partition of cart lines into per-vendor
 * groups and a pay-now list (`splitByVendorAndTerms`), and the draft-order
 * line built from a cart line (`toDraftOrderLine`).
 */
module CartSplit {
  import opened Wrappers
  import opened JsValues

  /** A cart line; `vendor` is "" when the line has no (or an empty) vendor. */
  datatype Line = Line(title: JsValue, quantity: JsValue, variantId: JsValue, vendor: string)

  /** One entry of the customer's `logtek.vendor_accounts` metafield. */
  datatype VendorAccount = VendorAccount(vendor: string, eligible: JsValue)

  /** A draft-order line item; `variantId` is `None` when the property is not set. */
  datatype DraftOrderLine = DraftOrderLine(title: JsValue, quantity: JsValue, variantId: Option<JsValue>)

  // ------------------------------------------------------ vendorMap

  /** The eligibility the map records for `vendor`: that of the last account naming it. */
  function RecordedFlag(accounts: seq<VendorAccount>, vendor: string): Option<bool>
  {
    if accounts == [] then None
    else
      var last := accounts[|accounts| - 1];
      if last.vendor == vendor then Some(Truthy(last.eligible))
      else RecordedFlag(accounts[..|accounts| - 1], vendor)
  }

  /** `for (const v of vendorAccounts) vendorMap[v.vendor] = { eligible: !!v.eligible }`. */
  method BuildVendorMap(accounts: seq<VendorAccount>) returns (vendorMap: map<string, bool>)
    ensures forall vendor :: RecordedFlag(accounts, vendor) == (if vendor in vendorMap then Some(vendorMap[vendor]) else None)
  {
    vendorMap := map[];
    var i := 0;
    while i < |accounts|
      invariant 0 <= i <= |accounts|
      invariant forall vendor :: RecordedFlag(accounts[..i], vendor) == (if vendor in vendorMap then Some(vendorMap[vendor]) else None)
    {
      var v := accounts[i];
      vendorMap := vendorMap[v.vendor := Truthy(v.eligible)];
      assert accounts[..i + 1][..i] == accounts[..i];
      i := i + 1;
    }
    assert accounts[..i] == accounts;
  }

  /** Account `j` names `vendor` with coerced flag `flag`, and no later account names `vendor`. */
  ghost predicate LastNaming(accounts: seq<VendorAccount>, vendor: string, flag: bool, j: int)
  {
    && 0 <= j < |accounts|
    && accounts[j].vendor == vendor
    && Truthy(accounts[j].eligible) == flag
    && forall k :: j < k < |accounts| ==> accounts[k].vendor != vendor
  }

  /**
   * The last entry for a vendor wins: the map records `flag` for a vendor
   * exactly when the last account naming it has that coerced flag.
   */
  lemma {:induction false} LastAccountWins(accounts: seq<VendorAccount>, vendor: string, flag: bool)
    ensures RecordedFlag(accounts, vendor) == Some(flag) <==> exists j :: LastNaming(accounts, vendor, flag, j)
    decreases |accounts|
  {
    if accounts != [] {
      var n := |accounts| - 1;
      var init := accounts[..n];
      if accounts[n].vendor != vendor {
        LastAccountWins(init, vendor, flag);
        if RecordedFlag(accounts, vendor) == Some(flag) {
          var j :| LastNaming(init, vendor, flag, j);
          assert LastNaming(accounts, vendor, flag, j);
        }
        if j :| LastNaming(accounts, vendor, flag, j) {
          assert LastNaming(init, vendor, flag, j);
        }
      } else {
        if RecordedFlag(accounts, vendor) == Some(flag) {
          assert LastNaming(accounts, vendor, flag, n);
        }
        if j :| LastNaming(accounts, vendor, flag, j) {
          assert j == n;
        }
      }
    }
  }

  /** A vendor no account names is not in the map. */
  lemma {:induction false} UnnamedVendorUnrecorded(accounts: seq<VendorAccount>, vendor: string)
    ensures RecordedFlag(accounts, vendor) == None <==> forall j :: 0 <= j < |accounts| ==> accounts[j].vendor != vendor
    decreases |accounts|
  {
    if accounts != [] {
      var n := |accounts| - 1;
      UnnamedVendorUnrecorded(accounts[..n], vendor);
      if accounts[n].vendor != vendor {
        assert forall j :: 0 <= j < n ==> accounts[..n][j] == accounts[j];
      }
    }
  }

  // ----------------------------------------------------- the partition

  /** `l.vendor || "unknown"`. */
  function VendorKey(l: Line): (r: string)
    ensures r != ""
    ensures l.vendor != "" ==> r == l.vendor
    ensures l.vendor == "" ==> r == "unknown"
  {
    if l.vendor != "" then l.vendor else "unknown"
  }

  /** `vendorMap[vendor]?.eligible ?? false`. */
  predicate Eligible(vendorMap: map<string, bool>, vendor: string)
    ensures vendor !in vendorMap ==> !Eligible(vendorMap, vendor)
    ensures vendor in vendorMap ==> (Eligible(vendorMap, vendor) <==> vendorMap[vendor])
  {
    vendor in vendorMap && vendorMap[vendor]
  }

  /** The lines of `s` that satisfy `f`, in order. */
  function Filter<T>(s: seq<T>, f: T -> bool): (r: seq<T>)
    ensures |r| <= |s|
  {
    if s == [] then []
    else Filter(s[..|s| - 1], f) + (if f(s[|s| - 1]) then [s[|s| - 1]] else [])
  }

  /** The lines that go to `vendor`'s group: lines of that vendor, when it is eligible. */
  function GroupOf(lines: seq<Line>, vendorMap: map<string, bool>, vendor: string): seq<Line>
  {
    Filter(lines, (l: Line) => VendorKey(l) == vendor && Eligible(vendorMap, vendor))
  }

  /** The lines that go to `payNow`: lines whose vendor is not eligible. */
  function PayNowOf(lines: seq<Line>, vendorMap: map<string, bool>): seq<Line>
  {
    Filter(lines, (l: Line) => !Eligible(vendorMap, VendorKey(l)))
  }

  /** The eligible vendors of `lines`, each once, in order of first appearance. */
  function GroupKeys(lines: seq<Line>, vendorMap: map<string, bool>): (r: seq<string>)
    ensures forall v :: v in r ==> Eligible(vendorMap, v)
  {
    if lines == [] then []
    else
      var keys := GroupKeys(lines[..|lines| - 1], vendorMap);
      var v := VendorKey(lines[|lines| - 1]);
      if Eligible(vendorMap, v) && v !in keys then keys + [v] else keys
  }

  /** The result of `splitByVendorAndTerms`: the `groups` Map as its keys in insertion order and its entries. */
  datatype Partition = Partition(vendors: seq<string>, groups: map<string, seq<Line>>, payNow: seq<Line>)

  /** What `splitByVendorAndTerms(lines, vendorMap)` returns, stated per vendor. */
  function PartitionOf(lines: seq<Line>, vendorMap: map<string, bool>): Partition
  {
    var keys := GroupKeys(lines, vendorMap);
    Partition(keys, map v | v in keys :: GroupOf(lines, vendorMap, v), PayNowOf(lines, vendorMap))
  }

  /** Proof helper: `Filter` unfolded once at `s + [x]`. */
  lemma FilterAppend<T>(s: seq<T>, x: T, f: T -> bool)
    ensures Filter(s + [x], f) == Filter(s, f) + (if f(x) then [x] else [])
  {
  }

  /** A vendor that has not been seen yet has an empty group. */
  lemma {:induction false} UnseenVendorHasNoLines(lines: seq<Line>, vendorMap: map<string, bool>, vendor: string)
    requires vendor !in GroupKeys(lines, vendorMap)
    ensures GroupOf(lines, vendorMap, vendor) == []
  {
    if lines != [] {
      var init := lines[..|lines| - 1];
      UnseenVendorHasNoLines(init, vendorMap, vendor);
    }
  }

  /** Proof helper: `GroupOf` unfolded once at `lines + [l]`. */
  lemma GroupOfAppend(lines: seq<Line>, l: Line, vendorMap: map<string, bool>, vendor: string)
    ensures GroupOf(lines + [l], vendorMap, vendor)
         == GroupOf(lines, vendorMap, vendor) + (if VendorKey(l) == vendor && Eligible(vendorMap, vendor) then [l] else [])
  {
  }

  /** Proof helper: `PayNowOf` unfolded once at `lines + [l]`. */
  lemma PayNowOfAppend(lines: seq<Line>, l: Line, vendorMap: map<string, bool>)
    ensures PayNowOf(lines + [l], vendorMap)
         == PayNowOf(lines, vendorMap) + (if Eligible(vendorMap, VendorKey(l)) then [] else [l])
  {
  }

  /** Proof helper: `GroupKeys` unfolded once at `lines + [l]`. */
  lemma GroupKeysAppend(lines: seq<Line>, l: Line, vendorMap: map<string, bool>)
    ensures GroupKeys(lines + [l], vendorMap)
         == var keys := GroupKeys(lines, vendorMap);
            if Eligible(vendorMap, VendorKey(l)) && VendorKey(l) !in keys then keys + [VendorKey(l)] else keys
  {
  }

  /** The position of the first line of `vendor` in `lines`, or `|lines|` when it has none. */
  function FirstIndex(lines: seq<Line>, vendor: string): (i: nat)
    ensures i <= |lines|
    ensures i < |lines| ==> VendorKey(lines[i]) == vendor
    ensures forall k | 0 <= k < i :: VendorKey(lines[k]) != vendor
  {
    if lines == [] then 0
    else if VendorKey(lines[0]) == vendor then 0
    else 1 + FirstIndex(lines[1..], vendor)
  }

  /** One more line leaves a vendor's first position alone unless the vendor is new. */
  lemma FirstIndexAppend(lines: seq<Line>, l: Line, vendor: string)
    ensures FirstIndex(lines + [l], vendor)
         == if FirstIndex(lines, vendor) < |lines| then FirstIndex(lines, vendor)
            else if VendorKey(l) == vendor then |lines|
            else |lines| + 1
  {
    var s := lines + [l];
    var i := FirstIndex(lines, vendor);
    if i < |lines| {
      assert s[i] == lines[i];
    } else {
      assert forall k | 0 <= k < |lines| :: s[k] == lines[k];
      assert s[|lines|] == l;
    }
  }

  /** A vendor is a key exactly when it is eligible and some line has it. */
  lemma {:induction false} GroupKeysOccur(lines: seq<Line>, vendorMap: map<string, bool>, v: string)
    ensures v in GroupKeys(lines, vendorMap) <==> Eligible(vendorMap, v) && FirstIndex(lines, v) < |lines|
  {
    if lines != [] {
      var init := lines[..|lines| - 1];
      var l := lines[|lines| - 1];
      assert lines == init + [l];
      GroupKeysOccur(init, vendorMap, v);
      FirstIndexAppend(init, l, v);
    }
  }

  /**
   * The keys are in the order of their vendors' first lines: the
   * `!groups.has(vendor)` test adds a vendor at its first line and never again.
   */
  lemma {:induction false} GroupKeysFirstSeen(lines: seq<Line>, vendorMap: map<string, bool>)
    ensures var keys := GroupKeys(lines, vendorMap);
            forall i, j | 0 <= i < j < |keys| :: FirstIndex(lines, keys[i]) < FirstIndex(lines, keys[j])
  {
    if lines != [] {
      var init := lines[..|lines| - 1];
      var l := lines[|lines| - 1];
      assert lines == init + [l];
      GroupKeysFirstSeen(init, vendorMap);
      var keys := GroupKeys(init, vendorMap);
      forall k | k in keys
        ensures FirstIndex(lines, k) == FirstIndex(init, k) < |init|
      {
        GroupKeysOccur(init, vendorMap, k);
        FirstIndexAppend(init, l, k);
      }
      var v := VendorKey(l);
      if Eligible(vendorMap, v) && v !in keys {
        GroupKeysOccur(init, vendorMap, v);
        FirstIndexAppend(init, l, v);
        assert GroupKeys(lines, vendorMap) == keys + [v];
      } else {
        assert GroupKeys(lines, vendorMap) == keys;
      }
    }
  }

  /** `vendors`, `groups` and `payNow` are the partition of the lines `done`. */
  ghost predicate Tracks(done: seq<Line>, vendorMap: map<string, bool>,
                         vendors: seq<string>, groups: map<string, seq<Line>>, payNow: seq<Line>)
  {
    && vendors == GroupKeys(done, vendorMap)
    && (forall v :: v in groups <==> v in vendors)
    && (forall v :: v in groups ==> groups[v] == GroupOf(done, vendorMap, v))
    && payNow == PayNowOf(done, vendorMap)
  }

  /**
   * One line appended: an eligible line goes to the end of its vendor's group
   * (the vendor joining the key order when new), any other line to `payNow`.
   */
  lemma TracksStep(done: seq<Line>, l: Line, done': seq<Line>, vendorMap: map<string, bool>,
                   vendors: seq<string>, groups: map<string, seq<Line>>, payNow: seq<Line>,
                   vendors': seq<string>, groups': map<string, seq<Line>>, payNow': seq<Line>)
    requires done' == done + [l]
    requires Tracks(done, vendorMap, vendors, groups, payNow)
    requires Eligible(vendorMap, VendorKey(l)) ==>
      && vendors' == (if VendorKey(l) in groups then vendors else vendors + [VendorKey(l)])
      && groups' == groups[VendorKey(l) := (if VendorKey(l) in groups then groups[VendorKey(l)] else []) + [l]]
      && payNow' == payNow
    requires !Eligible(vendorMap, VendorKey(l)) ==>
      vendors' == vendors && groups' == groups && payNow' == payNow + [l]
    ensures Tracks(done', vendorMap, vendors', groups', payNow')
  {
    var v := VendorKey(l);
    GroupKeysAppend(done, l, vendorMap);
    PayNowOfAppend(done, l, vendorMap);
    if Eligible(vendorMap, v) && v !in groups {
      UnseenVendorHasNoLines(done, vendorMap, v);
    }
    forall u | u in groups' ensures groups'[u] == GroupOf(done + [l], vendorMap, u) {
      GroupOfAppend(done, l, vendorMap, u);
    }
  }

  /** State that tracks all the lines is the partition of the lines. */
  lemma TracksPartition(lines: seq<Line>, vendorMap: map<string, bool>,
                        vendors: seq<string>, groups: map<string, seq<Line>>, payNow: seq<Line>)
    requires Tracks(lines, vendorMap, vendors, groups, payNow)
    ensures Partition(vendors, groups, payNow) == PartitionOf(lines, vendorMap)
  {
  }

  /**
   * `splitByVendorAndTerms(lines, vendorMap)`: the result is the partition the
   * lines define (`groups` keyed in first-seen order, then `payNow`).
   */
  method SplitByVendorAndTerms(lines: seq<Line>, vendorMap: map<string, bool>) returns (r: Partition)
    ensures r == PartitionOf(lines, vendorMap)
  {
    var vendors: seq<string> := [];
    var groups: map<string, seq<Line>> := map[];
    var payNow: seq<Line> := [];
    var i := 0;
    while i < |lines|
      invariant 0 <= i <= |lines|
      invariant Tracks(lines[..i], vendorMap, vendors, groups, payNow)
    {
      var l := lines[i];
      assert lines[..i + 1] == lines[..i] + [l];
      ghost var vendors0, groups0, payNow0 := vendors, groups, payNow;
      var vendor := VendorKey(l);
      var eligible := vendor in vendorMap && vendorMap[vendor];
      if eligible {
        if vendor !in groups {
          groups := groups[vendor := []];
          vendors := vendors + [vendor];
        }
        groups := groups[vendor := groups[vendor] + [l]];
        assert groups == groups0[vendor := (if vendor in groups0 then groups0[vendor] else []) + [l]];
      } else {
        payNow := payNow + [l];
      }
      TracksStep(lines[..i], l, lines[..i + 1], vendorMap, vendors0, groups0, payNow0, vendors, groups, payNow);
      i := i + 1;
    }
    assert lines[..i] == lines;
    TracksPartition(lines, vendorMap, vendors, groups, payNow);
    r := Partition(vendors, groups, payNow);
  }

  // ------------------------------------------ facts about Filter

  lemma {:induction false} FilterConcat<T>(a: seq<T>, b: seq<T>, f: T -> bool)
    ensures Filter(a + b, f) == Filter(a, f) + Filter(b, f)
    decreases |b|
  {
    if b == [] {
      assert a + b == a;
    } else {
      var n := |b| - 1;
      assert (a + b)[..|a + b| - 1] == a + b[..n];
      assert (a + b)[|a + b| - 1] == b[n];
      FilterConcat(a, b[..n], f);
    }
  }

  lemma {:induction false} FilterSound<T>(s: seq<T>, f: T -> bool, x: T)
    requires x in Filter(s, f)
    ensures x in s && f(x)
  {
    var n := |s| - 1;
    if x in Filter(s[..n], f) {
      FilterSound(s[..n], f, x);
      assert s[..n] <= s;
    }
  }

  lemma {:induction false} FilterKeepsAll<T>(s: seq<T>, f: T -> bool)
    requires forall x :: x in s ==> f(x)
    ensures Filter(s, f) == s
  {
    if s != [] {
      var n := |s| - 1;
      assert forall x :: x in s[..n] ==> x in s;
      FilterKeepsAll(s[..n], f);
      assert s[n] in s;
      assert s[..n] + [s[n]] == s;
    }
  }

  lemma {:induction false} FilterKeepsNone<T>(s: seq<T>, f: T -> bool)
    requires forall x :: x in s ==> !f(x)
    ensures Filter(s, f) == []
  {
    if s != [] {
      var n := |s| - 1;
      assert forall x :: x in s[..n] ==> x in s;
      FilterKeepsNone(s[..n], f);
      assert s[n] in s;
    }
  }

  /** The positions in `s` of the elements `Filter(s, f)` keeps, in order. */
  ghost function KeptPositions<T>(s: seq<T>, f: T -> bool): seq<int>
  {
    if s == [] then []
    else KeptPositions(s[..|s| - 1], f) + (if f(s[|s| - 1]) then [|s| - 1] else [])
  }

  /** `r` sits in `s` at the strictly increasing positions `pos`. */
  ghost predicate InOrderAt<T>(r: seq<T>, s: seq<T>, pos: seq<int>)
  {
    && |pos| == |r|
    && (forall k | 0 <= k < |r| :: 0 <= pos[k] < |s| && s[pos[k]] == r[k])
    && (forall k, m | 0 <= k < m < |r| :: pos[k] < pos[m])
  }

  /** Filtering keeps the relative order of the elements it keeps. */
  lemma {:induction false} FilterKeepsOrder<T>(s: seq<T>, f: T -> bool)
    ensures InOrderAt(Filter(s, f), s, KeptPositions(s, f))
  {
    if s != [] {
      var n := |s| - 1;
      FilterKeepsOrder(s[..n], f);
      var r, pos := Filter(s[..n], f), KeptPositions(s[..n], f);
      forall k | 0 <= k < |r| ensures s[pos[k]] == r[k] {
        assert s[..n][pos[k]] == r[k];
      }
    }
  }

  // -------------------------------------- facts about the partition

  /** Key discipline: a group holds only lines of its own eligible vendor. */
  lemma GroupLines(lines: seq<Line>, vendorMap: map<string, bool>, vendor: string, l: Line)
    requires l in GroupOf(lines, vendorMap, vendor)
    ensures l in lines && VendorKey(l) == vendor && Eligible(vendorMap, vendor)
  {
    FilterSound(lines, (x: Line) => VendorKey(x) == vendor && Eligible(vendorMap, vendor), l);
  }

  /** Key discipline: `payNow` holds only lines whose vendor is not eligible. */
  lemma PayNowLines(lines: seq<Line>, vendorMap: map<string, bool>, l: Line)
    requires l in PayNowOf(lines, vendorMap)
    ensures l in lines && !Eligible(vendorMap, VendorKey(l))
  {
    FilterSound(lines, (x: Line) => !Eligible(vendorMap, VendorKey(x)), l);
  }

  lemma {:induction false} FilterComplete<T>(s: seq<T>, f: T -> bool, x: T)
    requires x in s && f(x)
    ensures x in Filter(s, f)
  {
    var n := |s| - 1;
    if x != s[n] {
      assert s == s[..n] + [s[n]];
      assert x in s[..n];
      FilterComplete(s[..n], f, x);
    }
  }

  /**
   * Every input line is routed: to the group of `l.vendor || "unknown"` when
   * that vendor is eligible, and to `payNow` otherwise.
   */
  lemma EveryLineRouted(lines: seq<Line>, vendorMap: map<string, bool>, l: Line)
    requires l in lines
    ensures var p := PartitionOf(lines, vendorMap);
      if Eligible(vendorMap, VendorKey(l))
      then VendorKey(l) in p.vendors && VendorKey(l) in p.groups && l in p.groups[VendorKey(l)]
      else l in p.payNow
  {
    var v := VendorKey(l);
    if Eligible(vendorMap, v) {
      FilterComplete(lines, (x: Line) => VendorKey(x) == v && Eligible(vendorMap, v), l);
      GroupKeysExact(lines, vendorMap);
    } else {
      FilterComplete(lines, (x: Line) => !Eligible(vendorMap, VendorKey(x)), l);
    }
  }

  /** Input order is kept: `payNow` and every group list their lines in the order they came in. */
  lemma PartitionKeepsOrder(lines: seq<Line>, vendorMap: map<string, bool>)
    ensures var p := PartitionOf(lines, vendorMap);
      && (exists pos :: InOrderAt(p.payNow, lines, pos))
      && forall v | v in p.groups :: exists pos :: InOrderAt(p.groups[v], lines, pos)
  {
    var p := PartitionOf(lines, vendorMap);
    var ineligible := (x: Line) => !Eligible(vendorMap, VendorKey(x));
    FilterKeepsOrder(lines, ineligible);
    assert InOrderAt(p.payNow, lines, KeptPositions(lines, ineligible));
    forall v | v in p.groups ensures exists pos :: InOrderAt(p.groups[v], lines, pos) {
      var inGroup := (x: Line) => VendorKey(x) == v && Eligible(vendorMap, v);
      FilterKeepsOrder(lines, inGroup);
      assert InOrderAt(p.groups[v], lines, KeptPositions(lines, inGroup));
    }
  }

  ghost predicate Distinct(ks: seq<string>)
  {
    forall i, j :: 0 <= i < j < |ks| ==> ks[i] != ks[j]
  }

  /**
   * The groups are keyed by distinct vendors, and a vendor has a group exactly
   * when at least one line lands in it: no group is empty.
   */
  lemma {:induction false} GroupKeysExact(lines: seq<Line>, vendorMap: map<string, bool>)
    ensures Distinct(GroupKeys(lines, vendorMap))
    ensures forall v :: v in GroupKeys(lines, vendorMap) <==> GroupOf(lines, vendorMap, v) != []
  {
    if lines != [] {
      var n := |lines| - 1;
      var init, l := lines[..n], lines[n];
      assert lines == init + [l];
      GroupKeysExact(init, vendorMap);
      GroupKeysAppend(init, l, vendorMap);
      forall v ensures v in GroupKeys(lines, vendorMap) <==> GroupOf(lines, vendorMap, v) != [] {
        GroupOfAppend(init, l, vendorMap, v);
      }
    }
  }

  /** The groups of `ks`, concatenated in the order of `ks`. */
  ghost function Grouped(ks: seq<string>, lines: seq<Line>, vendorMap: map<string, bool>): seq<Line>
  {
    if ks == [] then []
    else Grouped(ks[..|ks| - 1], lines, vendorMap) + GroupOf(lines, vendorMap, ks[|ks| - 1])
  }

  /** The groups' lines, group after group in the order `groups.entries()` visits the keys. */
  function Flatten(vendors: seq<string>, groups: map<string, seq<Line>>): (r: seq<Line>)
    ensures forall l | l in r :: exists v | v in vendors && v in groups :: l in groups[v]
  {
    if vendors == [] then []
    else
      var v := vendors[|vendors| - 1];
      Flatten(vendors[..|vendors| - 1], groups) + (if v in groups then groups[v] else [])
  }

  lemma {:induction false} FlattenIsGrouped(ks: seq<string>, p: Partition, lines: seq<Line>, vendorMap: map<string, bool>)
    requires p == PartitionOf(lines, vendorMap)
    requires forall k :: k in ks ==> k in p.vendors
    ensures Flatten(ks, p.groups) == Grouped(ks, lines, vendorMap)
  {
    if ks != [] {
      var n := |ks| - 1;
      assert ks[n] in ks;
      assert forall k :: k in ks[..n] ==> k in ks;
      FlattenIsGrouped(ks[..n], p, lines, vendorMap);
    }
  }

  /** Adding `x` to the lines of `a` and `y` to those of `b` adds `x + y` to those of `a + b`. */
  lemma AddUp(a: seq<Line>, a': seq<Line>, b: seq<Line>, b': seq<Line>, x: multiset<Line>, y: multiset<Line>)
    requires multiset(a') == multiset(a) + x
    requires multiset(b') == multiset(b) + y
    ensures multiset(a' + b') == multiset(a + b) + (x + y)
  {
  }

  /** One more line, added to either part, keeps the parts a permutation of the lines. */
  lemma AddLine(a: seq<Line>, a': seq<Line>, b: seq<Line>, b': seq<Line>, init: seq<Line>, l: Line, inFirst: bool)
    requires multiset(a + b) == multiset(init)
    requires multiset(a') == multiset(a) + (if inFirst then multiset{l} else multiset{})
    requires multiset(b') == multiset(b) + (if inFirst then multiset{} else multiset{l})
    ensures multiset(a' + b') == multiset(init + [l])
  {
  }

  lemma {:induction false} GroupedAppendLine(ks: seq<string>, lines: seq<Line>, l: Line, vendorMap: map<string, bool>)
    requires Distinct(ks)
    ensures multiset(Grouped(ks, lines + [l], vendorMap))
         == multiset(Grouped(ks, lines, vendorMap))
            + (if VendorKey(l) in ks && Eligible(vendorMap, VendorKey(l)) then multiset{l} else multiset{})
  {
    if ks != [] {
      var n := |ks| - 1;
      var k := ks[n];
      assert ks == ks[..n] + [k];
      GroupedAppendLine(ks[..n], lines, l, vendorMap);
      GroupOfAppend(lines, l, vendorMap, k);
      var here := if VendorKey(l) == k && Eligible(vendorMap, k) then multiset{l} else multiset{};
      var before := if VendorKey(l) in ks[..n] && Eligible(vendorMap, VendorKey(l)) then multiset{l} else multiset{};
      var after := if VendorKey(l) in ks && Eligible(vendorMap, VendorKey(l)) then multiset{l} else multiset{};
      if VendorKey(l) == k {
        assert VendorKey(l) !in ks[..n];
        assert before == multiset{} && after == here;
        assert before + here == after;
      } else {
        assert here == multiset{} && after == before;
        assert before + here == after;
      }
      assert Grouped(ks, lines, vendorMap) == Grouped(ks[..n], lines, vendorMap) + GroupOf(lines, vendorMap, k);
      assert Grouped(ks, lines + [l], vendorMap)
          == Grouped(ks[..n], lines + [l], vendorMap) + GroupOf(lines + [l], vendorMap, k);
      AddUp(Grouped(ks[..n], lines, vendorMap), Grouped(ks[..n], lines + [l], vendorMap),
            GroupOf(lines, vendorMap, k), GroupOf(lines + [l], vendorMap, k), before, here);
    }
  }

  lemma {:induction false} GroupedOfUnseen(ks: seq<string>, lines: seq<Line>, l: Line, vendorMap: map<string, bool>)
    requires VendorKey(l) !in ks
    ensures Grouped(ks, lines + [l], vendorMap) == Grouped(ks, lines, vendorMap)
  {
    if ks != [] {
      var n := |ks| - 1;
      assert ks[n] in ks;
      assert forall k :: k in ks[..n] ==> k in ks;
      GroupedOfUnseen(ks[..n], lines, l, vendorMap);
      GroupOfAppend(lines, l, vendorMap, ks[n]);
    }
  }

  /**
   * Totality and no duplication: the groups, flattened in key order, and
   * `payNow` together hold exactly the input lines, each as often as given.
   */
  lemma {:induction false} PartitionIsPermutation(lines: seq<Line>, vendorMap: map<string, bool>)
    ensures var p := PartitionOf(lines, vendorMap);
      multiset(Flatten(p.vendors, p.groups) + p.payNow) == multiset(lines)
  {
    var p := PartitionOf(lines, vendorMap);
    FlattenIsGrouped(p.vendors, p, lines, vendorMap);
    GroupedPermutation(lines, vendorMap);
  }

  /** A line of an eligible vendor not seen before adds that vendor's group, holding only this line, at the end. */
  lemma GroupedNewVendor(init: seq<Line>, l: Line, vendorMap: map<string, bool>)
    requires Eligible(vendorMap, VendorKey(l))
    requires VendorKey(l) !in GroupKeys(init, vendorMap)
    ensures Grouped(GroupKeys(init + [l], vendorMap), init + [l], vendorMap)
         == Grouped(GroupKeys(init, vendorMap), init, vendorMap) + [l]
  {
    var keys, v := GroupKeys(init, vendorMap), VendorKey(l);
    GroupKeysAppend(init, l, vendorMap);
    var keys' := keys + [v];
    assert keys'[..|keys|] == keys;
    GroupedOfUnseen(keys, init, l, vendorMap);
    GroupOfAppend(init, l, vendorMap, v);
    UnseenVendorHasNoLines(init, vendorMap, v);
  }

  lemma {:induction false} GroupedPermutation(lines: seq<Line>, vendorMap: map<string, bool>)
    ensures multiset(Grouped(GroupKeys(lines, vendorMap), lines, vendorMap) + PayNowOf(lines, vendorMap))
         == multiset(lines)
  {
    if lines != [] {
      var n := |lines| - 1;
      var init, l := lines[..n], lines[n];
      assert lines == init + [l];
      GroupedPermutation(init, vendorMap);
      GroupKeysExact(init, vendorMap);
      GroupKeysAppend(init, l, vendorMap);
      PayNowOfAppend(init, l, vendorMap);
      var keys, v := GroupKeys(init, vendorMap), VendorKey(l);
      var grouped, payNow := Grouped(keys, init, vendorMap), PayNowOf(init, vendorMap);
      var grouped', payNow' := Grouped(GroupKeys(lines, vendorMap), lines, vendorMap), PayNowOf(lines, vendorMap);
      if !Eligible(vendorMap, v) {
        GroupedAppendLine(keys, init, l, vendorMap);
        AddLine(grouped, grouped', payNow, payNow', init, l, false);
      } else if v in keys {
        GroupedAppendLine(keys, init, l, vendorMap);
        AddLine(grouped, grouped', payNow, payNow', init, l, true);
      } else {
        GroupedNewVendor(init, l, vendorMap);
        AddLine(grouped, grouped', payNow, payNow', init, l, true);
      }
    }
  }

  lemma {:induction false} GroupKeysOfIneligible(a: seq<Line>, b: seq<Line>, vendorMap: map<string, bool>)
    requires forall x :: x in b ==> !Eligible(vendorMap, VendorKey(x))
    ensures GroupKeys(a + b, vendorMap) == GroupKeys(a, vendorMap)
    decreases |b|
  {
    if b == [] {
      assert a + b == a;
    } else {
      var n := |b| - 1;
      assert a + b == (a + b[..n]) + [b[n]];
      assert b[n] in b;
      assert forall x :: x in b[..n] ==> x in b;
      GroupKeysOfIneligible(a, b[..n], vendorMap);
      GroupKeysAppend(a + b[..n], b[n], vendorMap);
    }
  }

  lemma {:induction false} GroupKeysOfOneVendor(a: seq<Line>, b: seq<Line>, vendorMap: map<string, bool>, v: string)
    requires b != [] && Eligible(vendorMap, v)
    requires forall x :: x in b ==> VendorKey(x) == v
    requires v !in GroupKeys(a, vendorMap)
    ensures GroupKeys(a + b, vendorMap) == GroupKeys(a, vendorMap) + [v]
    decreases |b|
  {
    var n := |b| - 1;
    assert a + b == (a + b[..n]) + [b[n]];
    assert b[n] in b;
    GroupKeysAppend(a + b[..n], b[n], vendorMap);
    if n > 0 {
      assert forall x :: x in b[..n] ==> x in b;
      GroupKeysOfOneVendor(a, b[..n], vendorMap, v);
    } else {
      assert a + b[..n] == a;
    }
  }

  /** Re-partitioning the groups, flattened, reproduces the group keys. */
  lemma {:induction false} GroupKeysOfGrouped(ks: seq<string>, lines: seq<Line>, vendorMap: map<string, bool>)
    requires Distinct(ks)
    requires forall k :: k in ks ==> k in GroupKeys(lines, vendorMap)
    ensures GroupKeys(Grouped(ks, lines, vendorMap), vendorMap) == ks
  {
    if ks != [] {
      var n := |ks| - 1;
      var k := ks[n];
      assert ks == ks[..n] + [k];
      assert k in ks;
      assert forall j :: j in ks[..n] ==> j in ks;
      GroupKeysOfGrouped(ks[..n], lines, vendorMap);
      GroupKeysExact(lines, vendorMap);
      forall x | x in GroupOf(lines, vendorMap, k) ensures VendorKey(x) == k {
        GroupLines(lines, vendorMap, k, x);
      }
      var g := GroupOf(lines, vendorMap, k);
      GroupLines(lines, vendorMap, k, g[0]);
      GroupKeysOfOneVendor(Grouped(ks[..n], lines, vendorMap), g, vendorMap, k);
    }
  }

  /** Re-partitioning the groups, flattened, gives each vendor the same group. */
  lemma {:induction false} GroupOfGrouped(ks: seq<string>, lines: seq<Line>, vendorMap: map<string, bool>, v: string)
    requires Distinct(ks)
    ensures GroupOf(Grouped(ks, lines, vendorMap), vendorMap, v) == if v in ks then GroupOf(lines, vendorMap, v) else []
  {
    if ks != [] {
      var n := |ks| - 1;
      var k := ks[n];
      assert ks == ks[..n] + [k];
      GroupOfGrouped(ks[..n], lines, vendorMap, v);
      var f := (x: Line) => VendorKey(x) == v && Eligible(vendorMap, v);
      var g := GroupOf(lines, vendorMap, k);
      FilterConcat(Grouped(ks[..n], lines, vendorMap), g, f);
      if k == v {
        assert v !in ks[..n];
        forall x | x in g ensures f(x) { GroupLines(lines, vendorMap, k, x); }
        FilterKeepsAll(g, f);
      } else {
        forall x | x in g ensures !f(x) { GroupLines(lines, vendorMap, k, x); }
        FilterKeepsNone(g, f);
      }
    }
  }

  lemma {:induction false} PayNowOfGrouped(ks: seq<string>, lines: seq<Line>, vendorMap: map<string, bool>)
    ensures PayNowOf(Grouped(ks, lines, vendorMap), vendorMap) == []
  {
    if ks != [] {
      var n := |ks| - 1;
      PayNowOfGrouped(ks[..n], lines, vendorMap);
      var f := (x: Line) => !Eligible(vendorMap, VendorKey(x));
      var g := GroupOf(lines, vendorMap, ks[n]);
      FilterConcat(Grouped(ks[..n], lines, vendorMap), g, f);
      forall x | x in g ensures !f(x) { GroupLines(lines, vendorMap, ks[n], x); }
      FilterKeepsNone(g, f);
    }
  }

  /** The groups, flattened in key order, followed by `payNow`. */
  ghost function Regrouped(lines: seq<Line>, vendorMap: map<string, bool>): seq<Line>
  {
    Grouped(GroupKeys(lines, vendorMap), lines, vendorMap) + PayNowOf(lines, vendorMap)
  }

  lemma RegroupedKeys(lines: seq<Line>, vendorMap: map<string, bool>)
    ensures GroupKeys(Regrouped(lines, vendorMap), vendorMap) == GroupKeys(lines, vendorMap)
  {
    var keys, payNow := GroupKeys(lines, vendorMap), PayNowOf(lines, vendorMap);
    GroupKeysExact(lines, vendorMap);
    forall x | x in payNow ensures !Eligible(vendorMap, VendorKey(x)) { PayNowLines(lines, vendorMap, x); }
    GroupKeysOfGrouped(keys, lines, vendorMap);
    GroupKeysOfIneligible(Grouped(keys, lines, vendorMap), payNow, vendorMap);
  }

  lemma RegroupedPayNow(lines: seq<Line>, vendorMap: map<string, bool>)
    ensures PayNowOf(Regrouped(lines, vendorMap), vendorMap) == PayNowOf(lines, vendorMap)
  {
    var keys, payNow := GroupKeys(lines, vendorMap), PayNowOf(lines, vendorMap);
    var ineligible := (x: Line) => !Eligible(vendorMap, VendorKey(x));
    forall x | x in payNow ensures ineligible(x) { PayNowLines(lines, vendorMap, x); }
    FilterConcat(Grouped(keys, lines, vendorMap), payNow, ineligible);
    PayNowOfGrouped(keys, lines, vendorMap);
    FilterKeepsAll(payNow, ineligible);
  }

  lemma RegroupedGroup(lines: seq<Line>, vendorMap: map<string, bool>, v: string)
    requires v in GroupKeys(lines, vendorMap)
    ensures GroupOf(Regrouped(lines, vendorMap), vendorMap, v) == GroupOf(lines, vendorMap, v)
  {
    var keys, payNow := GroupKeys(lines, vendorMap), PayNowOf(lines, vendorMap);
    var inGroup := (x: Line) => VendorKey(x) == v && Eligible(vendorMap, v);
    GroupKeysExact(lines, vendorMap);
    FilterConcat(Grouped(keys, lines, vendorMap), payNow, inGroup);
    GroupOfGrouped(keys, lines, vendorMap, v);
    forall x | x in payNow ensures !inGroup(x) { PayNowLines(lines, vendorMap, x); }
    FilterKeepsNone(payNow, inGroup);
  }

  /**
   * Partitioning is idempotent: partitioning the flattened groups followed by
   * `payNow` gives back the same partition.
   */
  lemma PartitionIdempotent(lines: seq<Line>, vendorMap: map<string, bool>)
    ensures var p := PartitionOf(lines, vendorMap);
      PartitionOf(Flatten(p.vendors, p.groups) + p.payNow, vendorMap) == p
  {
    var p := PartitionOf(lines, vendorMap);
    FlattenIsGrouped(p.vendors, p, lines, vendorMap);
    var again := Regrouped(lines, vendorMap);
    assert Flatten(p.vendors, p.groups) + p.payNow == again;
    RegroupedKeys(lines, vendorMap);
    RegroupedPayNow(lines, vendorMap);
    forall v | v in p.vendors ensures GroupOf(again, vendorMap, v) == GroupOf(lines, vendorMap, v) {
      RegroupedGroup(lines, vendorMap, v);
    }
    assert PartitionOf(again, vendorMap).groups == p.groups;
  }

  // ------------------------------------------------ draft-order lines

  /** `toDraftOrderLine(l)`: `quantity` defaults to 1 when falsy; `variantId` is set only when truthy. */
  function ToDraftOrderLine(l: Line): (r: DraftOrderLine)
    ensures r.title == l.title
    ensures Truthy(r.quantity)
    ensures r.quantity == if Truthy(l.quantity) then l.quantity else Number(1.0)
    ensures r.variantId == if Truthy(l.variantId) then Some(l.variantId) else None
  {
    var line := DraftOrderLine(l.title, if Truthy(l.quantity) then l.quantity else Number(1.0), None);
    if Truthy(l.variantId) then line.(variantId := Some(l.variantId)) else line
  }
}
