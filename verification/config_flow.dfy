/** Device identification and MAC normalisation of config_flow.py, and the
    decisions of the three ways an entry is created (Bluetooth discovery,
    scan selection, manual entry). */
module ConfigFlow {
  import opened Common

  /** The Volcano's advertised BLE service. */
  const VOLCANO_SERVICE_UUID: string := "10100000-5354-4f52-5a26-4249434b454c"

  // ---------------------------------------------------------------------------
  // Characters and strings (ASCII case mapping)

  function UpperChar(c: char): char
  {
    if 'a' <= c <= 'z' then (c as int - 'a' as int + 'A' as int) as char else c
  }

  function LowerChar(c: char): char
  {
    if 'A' <= c <= 'Z' then (c as int - 'A' as int + 'a' as int) as char else c
  }

  /** `str.upper()`. */
  function Upper(s: string): (r: string)
    ensures |r| == |s| && forall i :: 0 <= i < |s| ==> r[i] == UpperChar(s[i])
  {
    seq(|s|, i requires 0 <= i < |s| => UpperChar(s[i]))
  }

  /** `str.lower()`. */
  function Lower(s: string): (r: string)
    ensures |r| == |s| && forall i :: 0 <= i < |s| ==> r[i] == LowerChar(s[i])
  {
    seq(|s|, i requires 0 <= i < |s| => LowerChar(s[i]))
  }

  /** `sub` occurs in `s` starting at index `i`. */
  predicate OccursAt(s: string, sub: string, i: int)
  {
    0 <= i <= |s| - |sub| && s[i..i + |sub|] == sub
  }

  /** `sub in s` for strings. */
  predicate Contains(s: string, sub: string)
  {
    exists i :: 0 <= i <= |s| - |sub| && OccursAt(s, sub, i)
  }

  /** Lower-casing both sides keeps a substring a substring. */
  lemma ContainsLower(s: string, sub: string)
    requires Contains(s, sub)
    ensures Contains(Lower(s), Lower(sub))
  {
    var i :| 0 <= i <= |s| - |sub| && OccursAt(s, sub, i);
    assert Lower(s)[i..i + |sub|] == Lower(sub);
    assert OccursAt(Lower(s), Lower(sub), i);
  }

  /** Lower-casing forgets any earlier change of case. */
  lemma LowerForgetsCase(s: string)
    ensures Lower(Upper(s)) == Lower(s)
    ensures Lower(Lower(s)) == Lower(s)
  {
  }

  // ---------------------------------------------------------------------------
  // MAC normalisation

  predicate IsSeparator(c: char)
  {
    c == ':' || c == '-'
  }

  /** `.replace(":", "").replace("-", "")`: the characters of `s` that are not
      separators, in order. */
  function StripSeparators(s: string): (r: string)
    ensures forall i :: 0 <= i < |r| ==> !IsSeparator(r[i])
    ensures |r| <= |s|
  {
    if |s| == 0 then ""
    else if IsSeparator(s[0]) then StripSeparators(s[1..])
    else [s[0]] + StripSeparators(s[1..])
  }

  /** Python's `s[i:j]` for 0 <= i <= j, clamped to the string. */
  function Slice(s: string, i: nat, j: nat): (r: string)
    requires i <= j
    ensures |r| <= j - i
    ensures |s| >= j ==> |r| == j - i
    ensures forall k :: 0 <= k < |r| ==> i + k < |s| && r[k] == s[i + k]
  {
    var a := if i < |s| then i else |s|;
    var b := if j < |s| then j else |s|;
    s[a..b]
  }

  /** Adjacent clamped slices concatenate. */
  lemma SliceSplit(s: string, i: nat, j: nat, k: nat)
    requires i <= j <= k
    ensures Slice(s, i, j) + Slice(s, j, k) == Slice(s, i, k)
  {
  }

  /** The pieces `t[2f:2f+2]` for f = first..5, joined with ':'. */
  function JoinFrom(t: string, first: nat): (r: string)
    requires first <= 5
    decreases 5 - first
  {
    var piece := Slice(t, 2 * first, 2 * first + 2);
    if first == 5 then piece else piece + ":" + JoinFrom(t, first + 1)
  }

  /** `":".join(t[i:i+2] for i in range(0, 12, 2))`. */
  function Join(t: string): string
  {
    JoinFrom(t, 0)
  }

  /** The characters that survive normalisation: the first twelve that are
      not separators, upper-cased. */
  function MacKey(addr: string): (k: string)
    ensures |k| <= 12
  {
    Slice(StripSeparators(Upper(addr)), 0, 12)
  }

  /** The normalisation all three flows apply to an address. */
  function NormalizeMac(addr: string): string
  {
    Join(StripSeparators(Upper(addr)))
  }

  /** Removing separators keeps only characters of the input. */
  lemma {:induction false} StripKeepsChars(s: string)
    ensures forall i :: 0 <= i < |StripSeparators(s)| ==> StripSeparators(s)[i] in s
  {
    if |s| > 0 {
      StripKeepsChars(s[1..]);
      var r := StripSeparators(s);
      forall i | 0 <= i < |r|
        ensures r[i] in s
      {
        if IsSeparator(s[0]) || i > 0 {
          var rest := StripSeparators(s[1..]);
          var k := if IsSeparator(s[0]) then i else i - 1;
          assert r[i] == rest[k];
          assert rest[k] in s[1..];
        }
      }
    }
  }

  /** The joined pieces hold only ':' and characters of the stripped address. */
  lemma {:induction false} JoinFromChars(t: string, first: nat)
    requires first <= 5
    ensures forall i :: 0 <= i < |JoinFrom(t, first)| ==> JoinFrom(t, first)[i] == ':' || JoinFrom(t, first)[i] in t
    decreases 5 - first
  {
    var piece := Slice(t, 2 * first, 2 * first + 2);
    if first < 5 {
      JoinFromChars(t, first + 1);
      var rest := JoinFrom(t, first + 1);
      var r := JoinFrom(t, first);
      assert r == (piece + ":") + rest;
      forall i | 0 <= i < |r|
        ensures r[i] == ':' || r[i] in t
      {
        if i < |piece| {
          assert r[i] == piece[i] == t[2 * first + i];
        } else if i == |piece| {
          assert r[i] == ':';
        } else {
          assert r[i] == rest[i - |piece| - 1];
        }
      }
    } else {
      forall i | 0 <= i < |piece|
        ensures piece[i] in t
      {
        assert piece[i] == t[2 * first + i];
      }
    }
  }

  /** The number of occurrences of `c` in `s`. */
  function Count(s: string, c: char): nat
  {
    if |s| == 0 then 0 else (if s[0] == c then 1 else 0) + Count(s[1..], c)
  }

  lemma {:induction false} CountAppend(a: string, b: string, c: char)
    ensures Count(a + b, c) == Count(a, c) + Count(b, c)
  {
    if |a| > 0 {
      assert (a + b)[1..] == a[1..] + b;
      CountAppend(a[1..], b, c);
    } else {
      assert a + b == b;
    }
  }

  lemma {:induction false} CountAbsent(s: string, c: char)
    requires forall i :: 0 <= i < |s| ==> s[i] != c
    ensures Count(s, c) == 0
  {
    if |s| > 0 {
      CountAbsent(s[1..], c);
    }
  }

  lemma {:induction false} StripAppend(a: string, b: string)
    ensures StripSeparators(a + b) == StripSeparators(a) + StripSeparators(b)
  {
    if |a| > 0 {
      assert (a + b)[1..] == a[1..] + b;
      StripAppend(a[1..], b);
    } else {
      assert a + b == b;
    }
  }

  lemma {:induction false} StripClean(s: string)
    requires forall i :: 0 <= i < |s| ==> !IsSeparator(s[i])
    ensures StripSeparators(s) == s
  {
    if |s| > 0 {
      StripClean(s[1..]);
    }
  }

  /** A piece of a separator-free string followed by ':' strips back to the piece. */
  lemma StripPieceColon(t: string, first: nat)
    requires forall i :: 0 <= i < |t| ==> !IsSeparator(t[i])
    ensures StripSeparators(Slice(t, 2 * first, 2 * first + 2) + ":") == Slice(t, 2 * first, 2 * first + 2)
  {
    var piece := Slice(t, 2 * first, 2 * first + 2);
    StripClean(piece);
    StripAppend(piece, ":");
    assert StripSeparators(":") == "";
  }

  /** Removing the separators from the joined pieces gives back the
      characters they were cut from. */
  lemma {:induction false} StripJoinFrom(t: string, first: nat)
    requires first <= 5
    requires forall i :: 0 <= i < |t| ==> !IsSeparator(t[i])
    ensures StripSeparators(JoinFrom(t, first)) == Slice(t, 2 * first, 12)
    decreases 5 - first
  {
    var piece := Slice(t, 2 * first, 2 * first + 2);
    if first < 5 {
      var rest := JoinFrom(t, first + 1);
      assert JoinFrom(t, first) == (piece + ":") + rest;
      assert StripSeparators((piece + ":") + rest) == StripSeparators(piece + ":") + StripSeparators(rest) by {
        StripAppend(piece + ":", rest);
      }
      assert StripSeparators(piece + ":") == piece by {
        StripPieceColon(t, first);
      }
      assert StripSeparators(rest) == Slice(t, 2 * first + 2, 12) by {
        StripJoinFrom(t, first + 1);
      }
      assert piece + Slice(t, 2 * first + 2, 12) == Slice(t, 2 * first, 12) by {
        SliceSplit(t, 2 * first, 2 * first + 2, 12);
      }
    } else {
      StripClean(piece);
    }
  }

  /** The joined pieces hold one ':' between each two. */
  lemma {:induction false} CountJoinFrom(t: string, first: nat)
    requires first <= 5
    requires forall i :: 0 <= i < |t| ==> !IsSeparator(t[i])
    ensures Count(JoinFrom(t, first), ':') == 5 - first
    decreases 5 - first
  {
    var piece := Slice(t, 2 * first, 2 * first + 2);
    CountAbsent(piece, ':');
    if first < 5 {
      CountJoinFrom(t, first + 1);
      CountAppend(piece + ":", JoinFrom(t, first + 1), ':');
      CountAppend(piece, ":", ':');
    }
  }

  /** Only the first twelve characters reach the pieces. */
  lemma {:induction false} JoinFromTwelve(t: string, first: nat)
    requires first <= 5
    ensures JoinFrom(t, first) == JoinFrom(Slice(t, 0, 12), first)
    decreases 5 - first
  {
    SliceOfPrefix(t, 2 * first, 2 * first + 2);
    if first < 5 {
      JoinFromTwelve(t, first + 1);
    }
  }

  /** A slice within the first twelve characters is a slice of those twelve. */
  lemma SliceOfPrefix(t: string, i: nat, j: nat)
    requires i <= j <= 12
    ensures Slice(Slice(t, 0, 12), i, j) == Slice(t, i, j)
  {
    var n := if 12 < |t| then 12 else |t|;
    var p := t[..n];
    assert Slice(t, 0, 12) == p;
    var a := if i < |t| then i else |t|;
    var b := if j < |t| then j else |t|;
    assert Slice(p, i, j) == p[a..b];
    assert p[a..b] == t[a..b];
  }

  /** With twelve characters or more every piece is two long, so the ':'
      sit at every third position. */
  lemma {:induction false} JoinFromLayout(t: string, first: nat)
    requires first <= 5
    requires |t| >= 12
    requires forall i :: 0 <= i < |t| ==> !IsSeparator(t[i])
    ensures |JoinFrom(t, first)| == 17 - 3 * first
    ensures forall i :: 0 <= i < |JoinFrom(t, first)| ==> (JoinFrom(t, first)[i] == ':' <==> i % 3 == 2)
    decreases 5 - first
  {
    var piece := Slice(t, 2 * first, 2 * first + 2);
    if first < 5 {
      JoinFromLayout(t, first + 1);
      var r := JoinFrom(t, first);
      var rest := JoinFrom(t, first + 1);
      assert r == (piece + ":") + rest;
      assert |piece| == 2;
      forall i | 0 <= i < |r|
        ensures r[i] == ':' <==> i % 3 == 2
      {
        if i < 2 {
          assert r[i] == t[2 * first + i];
        } else if i >= 3 {
          assert r[i] == rest[i - 3];
          assert (i - 3) % 3 == i % 3;
        }
      }
    }
  }

  /** No '-' and no lower-case letter. */
  predicate MacChars(s: string)
  {
    forall i :: 0 <= i < |s| ==> s[i] != '-' && !('a' <= s[i] <= 'z')
  }

  /** Removing separators from a string without lower-case letters leaves it clean. */
  lemma {:induction false} StripMacChars(s: string)
    requires forall i :: 0 <= i < |s| ==> !('a' <= s[i] <= 'z')
    ensures MacChars(StripSeparators(s))
  {
    if |s| > 0 {
      StripMacChars(s[1..]);
      var r, rest := StripSeparators(s), StripSeparators(s[1..]);
      if !IsSeparator(s[0]) {
        assert r == [s[0]] + rest;
        forall i | 0 <= i < |r|
          ensures r[i] != '-' && !('a' <= r[i] <= 'z')
        {
          if i > 0 {
            assert r[i] == rest[i - 1];
          }
        }
      }
    }
  }

  /** Joining the pairs of a clean string with ':' keeps it clean. */
  lemma {:induction false} JoinFromMacChars(t: string, first: nat)
    requires first <= 5 && MacChars(t)
    ensures MacChars(JoinFrom(t, first))
    decreases 5 - first
  {
    var piece := Slice(t, 2 * first, 2 * first + 2);
    if first < 5 {
      JoinFromMacChars(t, first + 1);
      var rest, r := JoinFrom(t, first + 1), JoinFrom(t, first);
      assert r == (piece + ":") + rest;
      forall i | 0 <= i < |r|
        ensures r[i] != '-' && !('a' <= r[i] <= 'z')
      {
        if i < |piece| {
          assert r[i] == piece[i];
        } else if i > |piece| {
          assert r[i] == rest[i - |piece| - 1];
        }
      }
    }
  }

  /** Every character of a normalised MAC is ':' or an upper-cased non-separator. */
  lemma NormalizedChars(addr: string)
    ensures MacChars(NormalizeMac(addr))
  {
    StripMacChars(Upper(addr));
    JoinFromMacChars(StripSeparators(Upper(addr)), 0);
  }

  /** A normalised MAC has exactly five ':', no '-' and no lower-case letter;
      with at least twelve characters left after removing separators it is
      17 long with ':' exactly at positions 2, 5, 8, 11 and 14. */
  lemma NormalizedShape(addr: string)
    ensures Count(NormalizeMac(addr), ':') == 5
    ensures forall i :: 0 <= i < |NormalizeMac(addr)| ==> NormalizeMac(addr)[i] != '-'
    ensures forall i :: 0 <= i < |NormalizeMac(addr)| ==> !('a' <= NormalizeMac(addr)[i] <= 'z')
    ensures |StripSeparators(Upper(addr))| >= 12 ==>
      && |NormalizeMac(addr)| == 17
      && (forall i :: 0 <= i < 17 ==> (NormalizeMac(addr)[i] == ':' <==> i % 3 == 2))
  {
    var t := StripSeparators(Upper(addr));
    NormalizedChars(addr);
    CountJoinFrom(t, 0);
    if |t| >= 12 {
      JoinFromLayout(t, 0);
    }
  }

  /** Upper-casing changes nothing in a string without lower-case letters. */
  lemma UpperIdle(s: string)
    requires forall i :: 0 <= i < |s| ==> !('a' <= s[i] <= 'z')
    ensures Upper(s) == s
  {
  }

  /** Normalisation is determined by, and determines, the first twelve
      non-separator characters upper-cased. */
  lemma NormalizeIffKey(a: string, b: string)
    ensures NormalizeMac(a) == NormalizeMac(b) <==> MacKey(a) == MacKey(b)
  {
    var ta, tb := StripSeparators(Upper(a)), StripSeparators(Upper(b));
    JoinFromTwelve(ta, 0);
    JoinFromTwelve(tb, 0);
    StripJoinFrom(ta, 0);
    StripJoinFrom(tb, 0);
  }

  /** Normalising twice is normalising once. */
  lemma NormalizeIdempotent(addr: string)
    ensures NormalizeMac(NormalizeMac(addr)) == NormalizeMac(addr)
  {
    var t := StripSeparators(Upper(addr));
    var n := NormalizeMac(addr);
    NormalizedShape(addr);
    UpperIdle(n);
    StripJoinFrom(t, 0);
    JoinFromTwelve(t, 0);
  }

  /** Upper-casing commutes with removing separators. */
  lemma {:induction false} UpperStrip(s: string)
    ensures StripSeparators(Upper(s)) == Upper(StripSeparators(s))
  {
    if |s| > 0 {
      assert Upper(s)[1..] == Upper(s[1..]);
      UpperStrip(s[1..]);
      if !IsSeparator(s[0]) {
        assert Upper([s[0]] + StripSeparators(s[1..])) == [UpperChar(s[0])] + Upper(StripSeparators(s[1..]));
      }
    }
  }

  /** Normalisation ignores letter case. */
  lemma NormalizeIgnoresCase(a: string, b: string)
    requires Lower(a) == Lower(b)
    ensures NormalizeMac(a) == NormalizeMac(b)
  {
    forall i | 0 <= i < |a|
      ensures UpperChar(a[i]) == UpperChar(b[i])
    {
      assert LowerChar(a[i]) == LowerChar(b[i]);
    }
    assert Upper(a) == Upper(b);
  }

  /** Normalisation ignores where, and which, separators were written. */
  lemma NormalizeIgnoresSeparators(a: string, b: string)
    requires StripSeparators(a) == StripSeparators(b)
    ensures NormalizeMac(a) == NormalizeMac(b)
  {
    UpperStrip(a);
    UpperStrip(b);
  }

  /** Everything after the twelfth non-separator character is dropped. */
  lemma NormalizeIgnoresTail(a: string, tail: string)
    requires |StripSeparators(a)| >= 12
    ensures NormalizeMac(a + tail) == NormalizeMac(a)
  {
    KeyIgnoresTail(a, tail);
    NormalizeIffKey(a + tail, a);
  }

  lemma KeyIgnoresTail(a: string, tail: string)
    requires |StripSeparators(a)| >= 12
    ensures MacKey(a + tail) == MacKey(a)
  {
    UpperStrip(a);
    UpperAppend(a, tail);
    StripAppend(Upper(a), Upper(tail));
    var x, y := StripSeparators(Upper(a)), StripSeparators(Upper(tail));
    assert (x + y)[..12] == x[..12];
  }

  lemma UpperAppend(a: string, b: string)
    ensures Upper(a + b) == Upper(a) + Upper(b)
  {
  }

  // ---------------------------------------------------------------------------
  // Device identification

  /** `_is_volcano_device`: the name (None read as "") mentions "volcano" or
      "storz" in any case, or the service list holds the Volcano UUID in any case. */
  predicate IsVolcanoDevice(name: Option<string>, uuids: seq<string>)
  {
    var n := Lower(name.GetOr(""));
    Contains(n, "volcano") || Contains(n, "storz") ||
    Lower(VOLCANO_SERVICE_UUID) in seq(|uuids|, i requires 0 <= i < |uuids| => Lower(uuids[i]))
  }

  /** Identification does not depend on the case of the name or of the UUIDs,
      and a missing name behaves as the empty one. */
  lemma IdentificationIgnoresCase(name: string, uuids: seq<string>)
    ensures IsVolcanoDevice(Some(Upper(name)), uuids) == IsVolcanoDevice(Some(name), uuids)
    ensures IsVolcanoDevice(Some(name), seq(|uuids|, i requires 0 <= i < |uuids| => Upper(uuids[i])))
         == IsVolcanoDevice(Some(name), uuids)
    ensures IsVolcanoDevice(None, uuids) == IsVolcanoDevice(Some(""), uuids)
  {
    LowerForgetsCase(name);
    var up := seq(|uuids|, i requires 0 <= i < |uuids| => Upper(uuids[i]));
    forall i | 0 <= i < |uuids|
      ensures Lower(up[i]) == Lower(uuids[i])
    {
      LowerForgetsCase(uuids[i]);
    }
    assert seq(|up|, i requires 0 <= i < |up| => Lower(up[i])) == seq(|uuids|, i requires 0 <= i < |uuids| => Lower(uuids[i]));
  }

  /** A device seen by the scan: its advertised name and address. */
  datatype ScanDevice = ScanDevice(name: Option<string>, address: string)

  /** A scan result offered to the user. */
  datatype Found = Found(name: string, address: string, display: string)

  /** The scan keeps a device when its name is present, non-empty and
      mentions "VOLCANO" once upper-cased. */
  predicate ScanMatches(d: ScanDevice)
  {
    d.name.Some? && d.name.value != "" && Contains(Upper(d.name.value), "VOLCANO")
  }

  /** The entry offered for a kept device: `"{name} - ({address})"`. */
  function FoundOf(d: ScanDevice): Found
    requires d.name.Some?
  {
    Found(d.name.value, d.address, d.name.value + " - (" + d.address + ")")
  }

  /** The filter of `_scan_for_volcano_devices`. */
  function ScanFilter(devices: seq<ScanDevice>): (r: seq<Found>)
    ensures |r| <= |devices|
    ensures forall k :: 0 <= k < |r| ==>
      exists i :: 0 <= i < |devices| && ScanMatches(devices[i]) && r[k] == FoundOf(devices[i])
    ensures forall i :: 0 <= i < |devices| && ScanMatches(devices[i]) ==> FoundOf(devices[i]) in r
  {
    if |devices| == 0 then []
    else
      var rest := ScanFilter(devices[1..]);
      assert forall i :: 1 <= i < |devices| ==> devices[i] == devices[1..][i - 1];
      if ScanMatches(devices[0]) then [FoundOf(devices[0])] + rest else rest
  }

  /** The scan keeps the devices' order: filtering a concatenation is
      concatenating the filtered parts. */
  lemma {:induction false} ScanFilterAppend(a: seq<ScanDevice>, b: seq<ScanDevice>)
    ensures ScanFilter(a + b) == ScanFilter(a) + ScanFilter(b)
  {
    if |a| > 0 {
      assert (a + b)[1..] == a[1..] + b;
      ScanFilterAppend(a[1..], b);
    } else {
      assert a + b == b;
    }
  }

  /** Every device the scan offers would also be recognised as a Volcano by name. */
  lemma ScanKeepsVolcanoes(d: ScanDevice, uuids: seq<string>)
    requires ScanMatches(d)
    ensures IsVolcanoDevice(d.name, uuids)
  {
    ContainsLower(Upper(d.name.value), "VOLCANO");
    LowerForgetsCase(d.name.value);
    assert Lower("VOLCANO") == "volcano";
  }

  // ---------------------------------------------------------------------------
  // Entry creation

  /** A configured entry, with the MAC address it stores (if any). */
  datatype Entry = Entry(mac: Option<string>)

  /** The existing entries storing `mac`. */
  function Matching(entries: seq<Entry>, mac: string): (r: seq<Entry>)
    ensures forall k :: 0 <= k < |r| ==> r[k].mac == Some(mac) && r[k] in entries
    ensures forall i :: 0 <= i < |entries| && entries[i].mac == Some(mac) ==> entries[i] in r
  {
    if |entries| == 0 then []
    else
      var rest := Matching(entries[1..], mac);
      assert forall i :: 1 <= i < |entries| ==> entries[i] == entries[1..][i - 1];
      if entries[0].mac == Some(mac) then [entries[0]] + rest else rest
  }

  /** The duplicate check: some entry stores the normalised address. */
  predicate AlreadyConfigured(entries: seq<Entry>, address: string)
  {
    |Matching(entries, NormalizeMac(address))| > 0
  }

  /** A duplicate is reported exactly when an existing entry stores the same
      normalised MAC; two spellings of one address are the same device. */
  lemma AlreadyConfiguredIff(entries: seq<Entry>, address: string, other: string)
    ensures AlreadyConfigured(entries, address) <==>
      exists i :: 0 <= i < |entries| && entries[i].mac == Some(NormalizeMac(address))
    ensures MacKey(address) == MacKey(other) ==>
      AlreadyConfigured(entries, address) == AlreadyConfigured(entries, other)
  {
    var mac := NormalizeMac(address);
    if AlreadyConfigured(entries, address) {
      var m := Matching(entries, mac);
      assert m[0] in entries;
    }
    NormalizeIffKey(address, other);
  }

  /** How a flow step ends. */
  datatype FlowOutcome =
    | CreateEntry(title: string, mac: string)        // a config entry storing `mac`
    | Abort(reason: string)
    | ShowForm(step: string, error: Option<string>)  // a form, with the error shown on it

  /** The title of a created entry. */
  function Title(mac: string): string
  {
    "Volcano Hybrid (" + mac + ")"
  }

  /** `async_step_bluetooth`: not a Volcano aborts; a duplicate aborts;
      otherwise the entry is created without a connection test. */
  function BluetoothStep(entries: seq<Entry>, name: Option<string>, uuids: seq<string>, address: string): (r: FlowOutcome)
    ensures CreatesFresh(r, entries, address)
    ensures r.CreateEntry? ==> IsVolcanoDevice(name, uuids)
  {
    AlreadyConfiguredIff(entries, address, address);
    if !IsVolcanoDevice(name, uuids) then Abort("not_supported")
    else if AlreadyConfigured(entries, address) then Abort("already_configured")
    else CreateEntry(Title(NormalizeMac(address)), NormalizeMac(address))
  }

  /** `async_step_manual` with an address: a duplicate is an error; otherwise
      the connection test (`connects`) decides. */
  function ManualStep(entries: seq<Entry>, address: string, connects: bool): (r: FlowOutcome)
    ensures CreatesFresh(r, entries, address)
    ensures r.CreateEntry? ==> connects
  {
    AlreadyConfiguredIff(entries, address, address);
    if AlreadyConfigured(entries, address) then ShowForm("manual", Some("already_configured"))
    else if connects then CreateEntry(Title(NormalizeMac(address)), NormalizeMac(address))
    else ShowForm("manual", Some("cannot_connect"))
  }

  /** The first offered device whose display string is `display`. */
  function Select(found: seq<Found>, display: string): (r: Option<Found>)
    ensures r.Some? ==> exists k ::
      && 0 <= k < |found| && found[k] == r.value && r.value.display == display
      && (forall j :: 0 <= j < k ==> found[j].display != display)
    ensures r.None? ==> forall k :: 0 <= k < |found| ==> found[k].display != display
  {
    if |found| == 0 then None
    else if found[0].display == display then Some(found[0])
    else
      var r := Select(found[1..], display);
      assert forall k :: 1 <= k < |found| ==> found[k] == found[1..][k - 1];
      if r.Some? then
        var k :| 0 <= k < |found[1..]| && found[1..][k] == r.value && r.value.display == display &&
          (forall j :: 0 <= j < k ==> found[1..][j].display != display);
        assert found[k + 1] == r.value;
        r
      else r
  }

  /** What the user submitted to the discovery form. */
  datatype DiscoveryInput =
    | NoInput               // the step was entered, nothing submitted yet
    | NoDevice              // submitted without a device
    | Device(display: string)

  /** The device the input selects among the offered ones, if any. */
  function Chosen(found: seq<Found>, input: DiscoveryInput): Option<Found>
  {
    if input.Device? then Select(found, input.display) else None
  }

  /** The error the discovery form shows when no entry is created. */
  function DiscoveryError(entries: seq<Entry>, found: seq<Found>, input: DiscoveryInput): Option<string>
  {
    match input
    case NoInput => None
    case NoDevice => Some("no_device_selected")
    case Device(_) =>
      match Chosen(found, input)
      case None => None
      case Some(f) => if AlreadyConfigured(entries, f.address) then Some("already_configured") else Some("cannot_connect")
  }

  /** `async_step_discovery`: a selected offered device goes through the same
      checks as a manual entry; otherwise the devices are scanned again
      (`rescanned`) and, when there are none, the first form is shown with
      "no_devices_found" instead of any other error. */
  function DiscoveryStep(entries: seq<Entry>, found: seq<Found>, input: DiscoveryInput, connects: bool,
                         rescanned: seq<Found>): (r: FlowOutcome)
    ensures r.CreateEntry? ==>
      && Chosen(found, input).Some? && connects
      && CreatesFresh(r, entries, Chosen(found, input).value.address)
  {
    var chosen := Chosen(found, input);
    if chosen.Some? && !AlreadyConfigured(entries, chosen.value.address) && connects then
      AlreadyConfiguredIff(entries, chosen.value.address, chosen.value.address);
      CreateEntry(Title(NormalizeMac(chosen.value.address)), NormalizeMac(chosen.value.address))
    else if |rescanned| == 0 then ShowForm("user", Some("no_devices_found"))
    else ShowForm("discovery", DiscoveryError(entries, found, input))
  }

  /** A created entry stores the normalised address, which no existing entry
      stores. */
  predicate CreatesFresh(o: FlowOutcome, entries: seq<Entry>, address: string)
  {
    o.CreateEntry? ==>
      && o.mac == NormalizeMac(address)
      && o.title == Title(o.mac)
      && (forall i :: 0 <= i < |entries| ==> entries[i].mac != Some(o.mac))
  }

  /** The Bluetooth step never duplicates an entry, and reports a duplicate
      exactly for a recognised device whose MAC is already stored. */
  lemma BluetoothStepProperties(entries: seq<Entry>, name: Option<string>, uuids: seq<string>, address: string)
    ensures CreatesFresh(BluetoothStep(entries, name, uuids, address), entries, address)
    ensures BluetoothStep(entries, name, uuids, address) == Abort("already_configured") <==>
      IsVolcanoDevice(name, uuids) && exists i :: 0 <= i < |entries| && entries[i].mac == Some(NormalizeMac(address))
    ensures BluetoothStep(entries, name, uuids, address).CreateEntry? <==>
      IsVolcanoDevice(name, uuids) && !AlreadyConfigured(entries, address)
  {
    AlreadyConfiguredIff(entries, address, address);
  }

  /** The manual step never duplicates an entry, reports a duplicate exactly
      when the MAC is already stored, and creates an entry exactly when the
      address is new and the connection test passes. */
  lemma ManualStepProperties(entries: seq<Entry>, address: string, connects: bool)
    ensures CreatesFresh(ManualStep(entries, address, connects), entries, address)
    ensures ManualStep(entries, address, connects) == ShowForm("manual", Some("already_configured")) <==>
      exists i :: 0 <= i < |entries| && entries[i].mac == Some(NormalizeMac(address))
    ensures ManualStep(entries, address, connects).CreateEntry? <==>
      !AlreadyConfigured(entries, address) && connects
  {
    AlreadyConfiguredIff(entries, address, address);
  }

  /** The discovery step creates an entry exactly for a selected offered
      device that is new and connects, storing its normalised address; with a
      non-empty re-scan a duplicate selection is reported as such. */
  lemma DiscoveryStepProperties(entries: seq<Entry>, found: seq<Found>, input: DiscoveryInput, connects: bool,
                                rescanned: seq<Found>)
    ensures DiscoveryStep(entries, found, input, connects, rescanned).CreateEntry? ==>
      exists k :: 0 <= k < |found| && input == Device(found[k].display) &&
        CreatesFresh(DiscoveryStep(entries, found, input, connects, rescanned), entries, found[k].address)
    ensures DiscoveryStep(entries, found, input, connects, rescanned).CreateEntry? ==> connects
    ensures (Chosen(found, input).Some? && connects &&
      (forall i :: 0 <= i < |entries| ==> entries[i].mac != Some(NormalizeMac(Chosen(found, input).value.address)))) ==>
      DiscoveryStep(entries, found, input, connects, rescanned).CreateEntry?
    ensures !DiscoveryStep(entries, found, input, connects, rescanned).CreateEntry? && |rescanned| == 0 ==>
      DiscoveryStep(entries, found, input, connects, rescanned) == ShowForm("user", Some("no_devices_found"))
    ensures Chosen(found, input).Some? && |rescanned| > 0 ==>
      ((DiscoveryStep(entries, found, input, connects, rescanned) == ShowForm("discovery", Some("already_configured")))
       <==> (exists i :: 0 <= i < |entries| && entries[i].mac == Some(NormalizeMac(Chosen(found, input).value.address))))
  {
    var chosen := Chosen(found, input);
    if chosen.Some? {
      var f := chosen.value;
      AlreadyConfiguredIff(entries, f.address, f.address);
      var k :| 0 <= k < |found| && found[k] == f;
    }
  }
}
