/** The two `Less` comparators the report view sorts the directory with. */
module Sorters {
  import opened GoStrings
  import opened Directory
  import opened Ordering
  import HwAddr

  /**
   * `ByEssidSorter.Less`: by SSID, and by rendered address among equal SSIDs.
   * An entry comes first only if its SSID is not greater, and among equal
   * SSIDs only if its address is different.
   */
  predicate EssidLess(a: WlanEndpoint, b: WlanEndpoint)
    ensures EssidLess(a, b) ==> !Less(b.essid, a.essid)
    ensures EssidLess(a, b) && a.essid == b.essid ==> a.hw != b.hw
  {
    LessNotBoth(a.essid, b.essid);
    LessIrreflexive(a.essid);
    LessIrreflexive(a.HwAddress());
    if a.essid == b.essid then Less(a.HwAddress(), b.HwAddress()) else Less(a.essid, b.essid)
  }

  /**
   * `ByWlanSeenSorter.Less`: `a` was last seen after `b`, so the most recent
   * comes first; an entry never comes before itself.
   */
  predicate SeenLess(a: WlanEndpoint, b: WlanEndpoint)
    ensures SeenLess(a, b) ==> a != b
  {
    a.lastSeen > b.lastSeen
  }

  /** "Not less" under ByEssid means the (SSID, address) key is greater or the same. */
  lemma EssidNotLess(a: WlanEndpoint, b: WlanEndpoint)
    ensures !EssidLess(a, b) <==> (a.essid == b.essid && a.HwAddress() == b.HwAddress()) || EssidLess(b, a)
  {
    if a.essid != b.essid {
      LessTotal(a.essid, b.essid);
      if Less(a.essid, b.essid) { LessAsymmetric(a.essid, b.essid); }
    } else if a.HwAddress() != b.HwAddress() {
      LessTotal(a.HwAddress(), b.HwAddress());
      if Less(a.HwAddress(), b.HwAddress()) { LessAsymmetric(a.HwAddress(), b.HwAddress()); }
    } else {
      LessIrreflexive(a.HwAddress());
    }
  }

  lemma EssidLessTransitive(a: WlanEndpoint, b: WlanEndpoint, c: WlanEndpoint)
    requires EssidLess(a, b) && EssidLess(b, c)
    ensures EssidLess(a, c)
  {
    if a.essid == b.essid && b.essid == c.essid {
      LessTransitive(a.HwAddress(), b.HwAddress(), c.HwAddress());
    } else if a.essid == b.essid {
    } else if b.essid == c.essid {
    } else {
      LessTransitive(a.essid, b.essid, c.essid);
      if a.essid == c.essid {
        LessAsymmetric(a.essid, b.essid);
      }
    }
  }

  lemma EssidLessIrreflexive(a: WlanEndpoint)
    ensures !EssidLess(a, a)
  {
    LessIrreflexive(a.HwAddress());
  }

  /** ByEssid meets the contract `sort.Sort` requires of a comparator. */
  lemma EssidLessIsStrictWeakOrder()
    ensures StrictWeakOrder(EssidLess)
  {
    forall a ensures !EssidLess(a, a) {
      EssidLessIrreflexive(a);
    }
    forall a, b, c | EssidLess(a, b) && EssidLess(b, c) ensures EssidLess(a, c) {
      EssidLessTransitive(a, b, c);
    }
    forall a, b, c | !EssidLess(a, b) && !EssidLess(b, c) ensures !EssidLess(a, c) {
      EssidNotLess(a, b);
      EssidNotLess(b, c);
      EssidNotLess(a, c);
      if EssidLess(b, a) && EssidLess(c, b) {
        EssidLessTransitive(c, b, a);
      }
      if EssidLess(a, c) && EssidLess(c, a) {
        EssidLessTransitive(a, c, a);
        EssidLessIrreflexive(a);
      }
    }
  }

  /** Entries with different addresses are always ordered by ByEssid: the rendering is injective. */
  lemma EssidLessConnected(a: WlanEndpoint, b: WlanEndpoint)
    requires a.hw != b.hw
    ensures EssidLess(a, b) || EssidLess(b, a)
  {
    if a.essid != b.essid {
      LessTotal(a.essid, b.essid);
    } else {
      if a.HwAddress() == b.HwAddress() {
        HwAddr.MacStringInjective(a.hw, b.hw);
      }
      LessTotal(a.HwAddress(), b.HwAddress());
    }
  }

  /**
   * A sequence sorted by ByEssid with distinct addresses is ordered by ascending
   * SSID, and by ascending address among equal SSIDs, with no ties.
   */
  lemma EssidSortedMeaning(s: seq<WlanEndpoint>)
    requires Sorted(EssidLess, s) && DistinctAddresses(s)
    ensures forall i, j :: 0 <= i < j < |s| ==>
      Less(s[i].essid, s[j].essid) || (s[i].essid == s[j].essid && Less(s[i].HwAddress(), s[j].HwAddress()))
  {
    forall i, j | 0 <= i < j < |s|
      ensures Less(s[i].essid, s[j].essid) || (s[i].essid == s[j].essid && Less(s[i].HwAddress(), s[j].HwAddress()))
    {
      EssidLessConnected(s[i], s[j]);
    }
  }

  /**
   * The ByEssid table order is fully determined: two ByEssid-sorted arrangements
   * of the same directory listing are equal, so `sort.Sort` (not a stable sort)
   * and the insertion sort of this model give the same table.
   */
  lemma EssidOrderUnique(s: seq<WlanEndpoint>, t: seq<WlanEndpoint>)
    requires DistinctAddresses(s) && multiset(s) == multiset(t)
    requires Sorted(EssidLess, s) && Sorted(EssidLess, t)
    ensures s == t
  {
    forall i, j | 0 <= i < |s| && 0 <= j < |s| && s[i] != s[j]
      ensures EssidLess(s[i], s[j]) || EssidLess(s[j], s[i])
    {
      if i < j { EssidLessConnected(s[i], s[j]); } else { EssidLessConnected(s[j], s[i]); }
    }
    SortedUnique(EssidLess, s, t);
  }

  lemma SeenLessIsStrictWeakOrder()
    ensures StrictWeakOrder(SeenLess)
  {
  }

  /** A sequence sorted by ByWlanSeen runs from the most recently seen entry to the least. */
  lemma SeenSortedMeaning(s: seq<WlanEndpoint>)
    requires Sorted(SeenLess, s)
    ensures forall i, j :: 0 <= i < j < |s| ==> s[i].lastSeen >= s[j].lastSeen
  {
  }

  /**
   * The ByEssid table of a directory is fully determined: any two ByEssid-sorted
   * listings of the same directory are equal.
   */
  lemma EssidTableUnique(s: seq<WlanEndpoint>, t: seq<WlanEndpoint>, m: Entries)
    requires Lists(s, m) && Lists(t, m)
    requires Sorted(EssidLess, s) && Sorted(EssidLess, t)
    ensures s == t
  {
    ListsSameMultiset(s, t, m);
    EssidOrderUnique(s, t);
  }
}
