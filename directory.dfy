/**
 * The target directory (`WlanTargets`) as the recon engine uses it: a map from
 * hardware address to entry, with the operations the engine calls. The
 * directory's own source is not part of this model. This model assumes that
 * `AddIfNew` inserts an entry when the address is absent, and otherwise
 * refreshes its channel and last-seen time and keeps its identity, SSID and
 * first-seen time.
 */
module Directory {
  import opened GoTypes
  import HwAddr

  /** A `WlanEndpoint`: address, SSID (empty for a client), channel, first and last seen. */
  datatype WlanEndpoint = WlanEndpoint(hw: Mac, essid: GoString, channel: int, firstSeen: int, lastSeen: int)
  {
    /** `Endpoint.HwAddress`: the address rendered as text. */
    function HwAddress(): GoString
    {
      HwAddr.MacString(hw)
    }
  }

  type Entries = map<Mac, WlanEndpoint>

  /** Each entry is stored under its own address. */
  ghost predicate Keyed(m: Entries)
  {
    forall k :: k in m ==> m[k].hw == k
  }

  /** The directory after one `AddIfNew(ssid, mac, _, channel)` at time `now`. */
  function AddEntry(m: Entries, ssid: GoString, mac: Mac, channel: int, now: int): (r: Entries)
    ensures r.Keys == m.Keys + {mac}
    ensures forall k :: k in m && k != mac ==> r[k] == m[k]
    ensures Keyed(m) ==> Keyed(r)
  {
    if mac in m then m[mac := m[mac].(channel := channel, lastSeen := now)]
    else m[mac := WlanEndpoint(mac, ssid, channel, now, now)]
  }

  /**
   * A repeat detection keeps the entry's identity, SSID and first-seen time and
   * refreshes its last-seen time; a first detection takes the given SSID.
   */
  lemma AddEntryKeepsIdentity(m: Entries, ssid: GoString, mac: Mac, channel: int, now: int)
    ensures var r := AddEntry(m, ssid, mac, channel, now);
      && r[mac].lastSeen == now && r[mac].channel == channel
      && (mac in m ==> r[mac].essid == m[mac].essid && r[mac].firstSeen == m[mac].firstSeen && r[mac].hw == m[mac].hw)
      && (mac !in m ==> r[mac].essid == ssid && r[mac].firstSeen == now && r[mac].hw == mac)
  {
  }

  /** A new address grows the directory by exactly one entry; a known one leaves its size alone. */
  lemma AddEntrySize(m: Entries, ssid: GoString, mac: Mac, channel: int, now: int)
    ensures |AddEntry(m, ssid, mac, channel, now)| == if mac in m then |m| else |m| + 1
  {
    var r := AddEntry(m, ssid, mac, channel, now);
    if mac in m {
      assert r.Keys == m.Keys;
    } else {
      assert r.Keys == m.Keys + {mac};
    }
  }

  /** No two positions of `s` hold the same address. */
  ghost predicate DistinctAddresses(s: seq<WlanEndpoint>)
  {
    forall i, j :: 0 <= i < j < |s| ==> s[i].hw != s[j].hw
  }

  /** `s` lists every entry of `m` once, in some order. */
  ghost predicate Lists(s: seq<WlanEndpoint>, m: Entries)
  {
    && |s| == |m|
    && DistinctAddresses(s)
    && (forall i :: 0 <= i < |s| ==> s[i].hw in m && m[s[i].hw] == s[i])
    && (forall k :: k in m ==> m[k] in s)
  }

  /** With distinct addresses, every element occurs at most once. */
  lemma {:induction false} DistinctOnce(s: seq<WlanEndpoint>, x: WlanEndpoint)
    requires DistinctAddresses(s)
    ensures multiset(s)[x] == if x in s then 1 else 0
    decreases |s|
  {
    if s != [] {
      var init, last := s[..|s| - 1], s[|s| - 1];
      assert s == init + [last];
      assert DistinctAddresses(init) by {
        forall i, j | 0 <= i < j < |init| ensures init[i].hw != init[j].hw {
          assert init[i] == s[i] && init[j] == s[j];
        }
      }
      DistinctOnce(init, x);
    }
  }

  /** An element occurring at two positions occurs at least twice. */
  lemma RepeatCounts(t: seq<WlanEndpoint>, i: nat, j: nat)
    requires i < j < |t| && t[i] == t[j]
    ensures multiset(t)[t[i]] >= 2
  {
    assert t == t[..j] + [t[j]] + t[j + 1..];
    assert t[..j][i] == t[i];
    assert multiset(t[..j])[t[i]] >= 1;
  }

  /** Two listings of the same directory hold the same elements, counted with multiplicity. */
  lemma ListsSameMultiset(s: seq<WlanEndpoint>, t: seq<WlanEndpoint>, m: Entries)
    requires Lists(s, m) && Lists(t, m)
    ensures multiset(s) == multiset(t)
  {
    forall x ensures multiset(s)[x] == multiset(t)[x] {
      DistinctOnce(s, x);
      DistinctOnce(t, x);
      if x in s {
        var i :| 0 <= i < |s| && s[i] == x;
        assert m[x.hw] in t;
      }
      if x in t {
        var i :| 0 <= i < |t| && t[i] == x;
        assert m[x.hw] in s;
      }
    }
  }

  /** Any rearrangement of a listing is a listing: sorting keeps every entry exactly once. */
  lemma ListsPermutation(s: seq<WlanEndpoint>, t: seq<WlanEndpoint>, m: Entries)
    requires Lists(s, m) && multiset(s) == multiset(t)
    ensures Lists(t, m)
  {
    assert |t| == |multiset(t)| == |multiset(s)| == |s|;
    forall i | 0 <= i < |t| ensures t[i].hw in m && m[t[i].hw] == t[i] {
      assert t[i] in multiset(s);
    }
    forall k | k in m ensures m[k] in t {
      assert m[k] in multiset(s);
    }
    forall i, j | 0 <= i < j < |t| ensures t[i].hw != t[j].hw {
      if t[i].hw == t[j].hw {
        RepeatCounts(t, i, j);
        DistinctOnce(s, t[i]);
      }
    }
  }

  class WlanTargets {
    /** The `Targets` map. */
    var entries: Entries

    ghost predicate Valid()
      reads this
    {
      Keyed(entries)
    }

    /** `NewWlanTargets`: an empty directory. */
    constructor ()
      ensures Valid() && entries == map[]
    {
      entries := map[];
    }

    /**
     * Records one detection. How the directory uses `isBaseStation` is not part
     * of this model; the engine's own properties do not depend on it.
     */
    method AddIfNew(ssid: GoString, mac: Mac, isBaseStation: bool, channel: int, now: int)
      requires Valid()
      modifies this
      ensures Valid()
      ensures entries == AddEntry(old(entries), ssid, mac, channel, now)
    {
      entries := AddEntry(entries, ssid, mac, channel, now);
    }

    method ClearAll()
      modifies this
      ensures Valid() && entries == map[]
    {
      entries := map[];
    }

    /** `List()`: every entry once, in an order the directory chooses. */
    method List() returns (s: seq<WlanEndpoint>)
      requires Valid()
      ensures Lists(s, entries)
    {
      s := [];
      var left := entries.Keys;
      while left != {}
        invariant left <= entries.Keys
        invariant |s| + |left| == |entries.Keys|
        invariant forall i :: 0 <= i < |s| ==> s[i].hw in entries && s[i].hw !in left && entries[s[i].hw] == s[i]
        invariant forall k :: k in entries && k !in left ==> entries[k] in s
        invariant DistinctAddresses(s)
        decreases |left|
      {
        var k :| k in left;
        s := s + [entries[k]];
        left := left - {k};
      }
    }
  }
}
