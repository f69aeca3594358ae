/**
 * The MAC search in `on_discover_button_clicked`: the operator's MAC text
 * is lower-cased and stripped of `:`, then the discovery replies are
 * scanned in dictionary order for the first one whose `result.mac` equals
 * it, and that reply's address replaces the text of the IP entry.
 */
module MacLookup {
  import opened Wrappers
  import opened Discovery

  predicate IsUpper(c: char) {
    'A' <= c <= 'Z'
  }

  /** `str.lower` on one character (ASCII letters only). */
  function Lower(c: char): (d: char)
    ensures !IsUpper(d)
    ensures IsUpper(c) ==> d as int == c as int + 32
    ensures !IsUpper(c) ==> d == c
  {
    if IsUpper(c) then (c as int + 32) as char else c
  }

  /** Text that normalisation leaves alone: no `:` and no upper-case letter. */
  predicate IsNormal(s: string) {
    forall i :: 0 <= i < |s| ==> s[i] != ':' && !IsUpper(s[i])
  }

  function Count(s: string, c: char): nat {
    if s == [] then 0 else (if s[0] == c then 1 else 0) + Count(s[1..], c)
  }

  /** `text.lower().replace(':', '')` */
  function Normalize(text: string): (r: string)
    ensures IsNormal(r)
    ensures |r| + Count(text, ':') == |text|
  {
    if text == [] then []
    else (if text[0] == ':' then [] else [Lower(text[0])]) + Normalize(text[1..])
  }

  /** Normalisation works character by character. */
  lemma {:induction false} NormalizeAppend(a: string, b: string)
    ensures Normalize(a + b) == Normalize(a) + Normalize(b)
  {
    if a != [] {
      assert (a + b)[1..] == a[1..] + b;
      NormalizeAppend(a[1..], b);
    } else {
      assert a + b == b;
    }
  }

  /** Exactly the normal texts are left unchanged by normalisation. */
  lemma {:induction false} NormalizeFixedPoint(s: string)
    ensures Normalize(s) == s <==> IsNormal(s)
  {
    if s != [] && IsNormal(s) {
      assert IsNormal(s[1..]) by {
        forall i | 0 <= i < |s[1..]| ensures s[1..][i] != ':' && !IsUpper(s[1..][i]) {
          assert s[1..][i] == s[i + 1];
        }
      }
      NormalizeFixedPoint(s[1..]);
    }
  }

  /** Normalising twice gives the same text as normalising once. */
  lemma NormalizeIdempotent(text: string)
    ensures Normalize(Normalize(text)) == Normalize(text)
  {
    NormalizeFixedPoint(Normalize(text));
  }

  /**
   * Only `:` is removed: every other character that no letter lower-cases
   * to, such as `-`, `.` or a digit, is kept as often as it occurs.
   */
  lemma {:induction false} NormalizeKeepsOtherSeparators(s: string, c: char)
    requires c != ':' && !IsUpper(c) && !('a' <= c <= 'z')
    ensures Count(Normalize(s), c) == Count(s, c)
  {
    if s != [] {
      NormalizeKeepsOtherSeparators(s[1..], c);
      var head := if s[0] == ':' then [] else [Lower(s[0])];
      CountAppend(head, Normalize(s[1..]), c);
    }
  }

  /**
   * Every upper-case letter becomes its lower-case counterpart: a
   * lower-case letter occurs in the result as often as it and its
   * upper-case form together occur in the input.
   */
  lemma {:induction false} NormalizeLowersLetters(s: string, c: char)
    requires 'a' <= c <= 'z'
    ensures Count(Normalize(s), c) == Count(s, c) + Count(s, (c as int - 32) as char)
  {
    if s != [] {
      NormalizeLowersLetters(s[1..], c);
      var head := if s[0] == ':' then [] else [Lower(s[0])];
      CountAppend(head, Normalize(s[1..]), c);
    }
  }

  lemma {:induction false} CountAppend(a: string, b: string, c: char)
    ensures Count(a + b, c) == Count(a, c) + Count(b, c)
  {
    if a != [] {
      assert (a + b)[1..] == a[1..] + b;
      CountAppend(a[1..], b, c);
    } else {
      assert a + b == b;
    }
  }

  /** One discovery reply with its `result.mac` already extracted. */
  datatype Device = Device(ip: Ip, mac: string)

  /** `devices[k]` is the first device whose MAC equals `mac`. */
  predicate IsFirstMatch(devices: seq<Device>, mac: string, k: int) {
    0 <= k < |devices| && devices[k].mac == mac &&
    forall j :: 0 <= j < k ==> devices[j].mac != mac
  }

  /**
   * The `for ... else` scan: the address of the first device whose MAC
   * equals the normalised text; None for the "Failed to find mac" branch
   * and when the MAC entry is empty (no scan at all).
   */
  method FindMac(macText: string, devices: seq<Device>) returns (found: Option<Ip>)
    ensures macText == [] ==> found == None
    ensures found.Some? ==> exists k :: IsFirstMatch(devices, Normalize(macText), k) && devices[k].ip == found.value
    ensures macText != [] && found.None? ==> forall j :: 0 <= j < |devices| ==> devices[j].mac != Normalize(macText)
  {
    found := None;
    if macText != [] {
      var macToFind := Normalize(macText);
      for i := 0 to |devices|
        invariant found == None
        invariant forall j :: 0 <= j < i ==> devices[j].mac != macToFind
      {
        if devices[i].mac == macToFind {
          found := Some(devices[i].ip);
          assert IsFirstMatch(devices, macToFind, i);
          return;
        }
      }
    }
  }

  /** At most one device is the first match. */
  lemma FirstMatchUnique(devices: seq<Device>, mac: string, k: int, k': int)
    requires IsFirstMatch(devices, mac, k) && IsFirstMatch(devices, mac, k')
    ensures k == k'
  {
  }

  /** The replies of one discovery round, in dictionary order, with their MACs parsed by `macOf`. */
  function Devices(responses: Responses, macOf: Bytes -> string): seq<Device> {
    seq(|responses|, i requires 0 <= i < |responses| => Device(responses[i].ip, macOf(responses[i].payload)))
  }

  /** The two entries of the window that the discover button reads and writes. */
  class DiscoverPanel {
    var ipText: string
    var macText: string

    constructor (ip: string, mac: string)
      ensures ipText == ip && macText == mac
    {
      ipText := ip;
      macText := mac;
    }

    /**
     * Runs one discovery round on `socket` and, when the MAC entry is not
     * empty, puts the address of the first matching reply into the IP
     * entry. `macOf` stands for `json.loads(response)['result']['mac']`.
     */
    method OnDiscoverButtonClicked(socket: seq<Outcome>, macOf: Bytes -> string)
      modifies this
      ensures macText == old(macText)
      ensures forall k :: IsFirstMatch(Devices(Collect(socket), macOf), Normalize(macText), k) && macText != [] ==>
                ipText == Devices(Collect(socket), macOf)[k].ip
      ensures macText == [] || (forall j :: 0 <= j < |Collect(socket)| ==> macOf(Collect(socket)[j].payload) != Normalize(macText)) ==>
                ipText == old(ipText)
    {
      var responses, _ := Discover(socket);
      var found := FindMac(macText, Devices(responses, macOf));
      if found.Some? {
        ipText := found.value;
      }
      forall k | IsFirstMatch(Devices(Collect(socket), macOf), Normalize(macText), k) && macText != []
        ensures ipText == Devices(Collect(socket), macOf)[k].ip
      {
        var k' :| IsFirstMatch(Devices(responses, macOf), Normalize(macText), k') && Devices(responses, macOf)[k'].ip == found.value;
        FirstMatchUnique(Devices(responses, macOf), Normalize(macText), k, k');
      }
    }
  }
}
