/// `getSecret_Kwallet`: the KWallet client. It asks `kwalletd<version>` for the network
/// wallet, opens it, lists its folders and, for every folder whose name looks like a
/// Chrome/Chromium key store, reads the folder's password map and inserts the values
/// stored under the exact keys "Chromium Safe Storage" and "Chrome Safe Storage" into
/// the caller's set. An empty password map ends the whole run; the wallet and the
/// session are closed only when every folder was read.
module KWallet {
  import opened Text
  import opened DBus
  import opened Seqs
  import SecretService

  const Interface: string := "org.kde.KWallet"
  const AppId: string := "signalbackup-tools"

  /** The decimal digit for `d`. */
  function DigitChar(d: nat): (c: char)
    requires d < 10
    ensures '0' <= c <= '9' && c as int - '0' as int == d
  {
    ('0' as int + d) as char
  }

  /** `std::to_string` on a non-negative integer. */
  function NatToString(n: nat): (s: string)
    ensures |s| > 0 && forall i :: 0 <= i < |s| ==> '0' <= s[i] <= '9'
    decreases n
  {
    if n < 10 then [DigitChar(n)] else NatToString(n / 10) + [DigitChar(n % 10)]
  }

  /** `std::to_string(int)`: a minus sign, then the digits of the magnitude. */
  function IntToString(i: int): (s: string)
    ensures |s| > 0 && (s[0] == '-' <==> i < 0)
    ensures forall k :: (if i < 0 then 1 else 0) <= k < |s| ==> '0' <= s[k] <= '9'
  {
    if i < 0 then "-" + NatToString(-i) else NatToString(i)
  }

  /** Distinct numbers print differently. */
  lemma {:induction false} NatToStringInjective(a: nat, b: nat)
    requires NatToString(a) == NatToString(b)
    ensures a == b
    decreases a
  {
    if a >= 10 && b >= 10 {
      var sa, sb := NatToString(a), NatToString(b);
      assert sa[|sa| - 1] == DigitChar(a % 10) && sb[|sb| - 1] == DigitChar(b % 10);
      assert sa[..|sa| - 1] == NatToString(a / 10) && sb[..|sb| - 1] == NatToString(b / 10);
      NatToStringInjective(a / 10, b / 10);
    }
  }

  lemma IntToStringInjective(a: int, b: int)
    requires IntToString(a) == IntToString(b)
    ensures a == b
  {
    if a < 0 {
      assert IntToString(a)[1..] == NatToString(-a) && IntToString(b)[1..] == NatToString(-b);
      NatToStringInjective(-a, -b);
    } else {
      NatToStringInjective(a, b);
    }
  }

  /** The bus name of the wallet daemon, `"org.kde.kwalletd" + std::to_string(version)`:
      the fixed prefix, then the version as a signed decimal number. */
  function Destination(version: int): (name: string)
    ensures |name| > 16 && name[..16] == "org.kde.kwalletd"
    ensures name[16] == '-' <==> version < 0
    ensures forall k :: (if version < 0 then 17 else 16) <= k < |name| ==> '0' <= name[k] <= '9'
  {
    "org.kde.kwalletd" + IntToString(version)
  }

  /** The daemon's object path, `"/modules/kwalletd" + std::to_string(version)`: the
      fixed prefix, then the version as a signed decimal number. */
  function ObjectPathOf(version: int): (path: string)
    ensures |path| > 17 && path[..17] == "/modules/kwalletd"
    ensures path[17] == '-' <==> version < 0
    ensures forall k :: (if version < 0 then 18 else 17) <= k < |path| ==> '0' <= path[k] <= '9'
  {
    "/modules/kwalletd" + IntToString(version)
  }

  /** Equal names come from equal versions: different versions address different
      daemons. */
  lemma DaemonNamesInjective(v: int, w: int)
    ensures Destination(v) == Destination(w) ==> v == w
    ensures ObjectPathOf(v) == ObjectPathOf(w) ==> v == w
  {
    if Destination(v) == Destination(w) {
      assert Destination(v)[16..] == IntToString(v) && Destination(w)[16..] == IntToString(w);
      IntToStringInjective(v, w);
    }
    if ObjectPathOf(v) == ObjectPathOf(w) {
      assert ObjectPathOf(v)[17..] == IntToString(v) && ObjectPathOf(w)[17..] == IntToString(w);
      IntToStringInjective(v, w);
    }
  }



  /** What the daemon answers during one run, as the typed `get<>` calls extract it. */
  datatype Replies = Replies(
    connected: bool,                          // DBusCon::ok()
    walletName: string,                       // networkWallet: "s", index 0
    handle: int,                              // open: "i" (an int32_t)
    folders: seq<string>,                     // folderList: "as", index 0
    passwords: string -> map<string, string>) // passwordList, per folder: "a{sv}", index 0

  /** The caller's `std::set<std::string>`, updated in place. */
  class SecretSet {
    var contents: set<string>

    constructor (initial: set<string>)
      ensures contents == initial
    {
      contents := initial;
    }

    /** `std::set::insert`: a value already present is not added twice. */
    method Insert(value: string)
      modifies this
      ensures contents == old(contents) + {value}
    {
      contents := contents + {value};
    }
  }

  // The requests, in the order the client sends them.

  function NetworkWalletCall(version: int): Event
  {
    MethodCall(Destination(version), ObjectPathOf(version), Interface, "networkWallet", [])
  }

  function OpenCall(version: int, walletName: string): Event
  {
    MethodCall(Destination(version), ObjectPathOf(version), Interface, "open",
               [Str(walletName), Int64(0), Str(AppId)])
  }

  function FolderListCall(version: int, handle: int): Event
  {
    MethodCall(Destination(version), ObjectPathOf(version), Interface, "folderList",
               [Int32(handle), Str(AppId)])
  }

  function PasswordListCall(version: int, handle: int, folder: string): Event
  {
    MethodCall(Destination(version), ObjectPathOf(version), Interface, "passwordList",
               [Int32(handle), Str(folder), Str(AppId)])
  }

  function CloseWalletCall(version: int, walletName: string): Event
  {
    MethodCall(Destination(version), ObjectPathOf(version), Interface, "close",
               [Str(walletName), Boolean(false)])
  }

  function CloseSessionCall(version: int, handle: int): Event
  {
    MethodCall(Destination(version), ObjectPathOf(version), Interface, "close",
               [Int32(handle), Boolean(false), Str(AppId)])
  }

  /** The folder heuristic: the label heuristic of the Secret Service client without its
      "Control" exclusion. */
  predicate FolderMatches(folder: string): (b: bool)
    ensures b <==>
              && ((exists i :: OccursAt(folder, "Chrome", i)) || (exists i :: OccursAt(folder, "Chromium", i)))
              && ((exists i :: OccursAt(folder, "Safe Storage", i)) || (exists i :: OccursAt(folder, "Keys", i)))
  {
    ContainsIffOccurs(folder, "Chrome");
    ContainsIffOccurs(folder, "Chromium");
    ContainsIffOccurs(folder, "Safe Storage");
    ContainsIffOccurs(folder, "Keys");
    && (Contains(folder, "Chrome") || Contains(folder, "Chromium"))
    && (Contains(folder, "Safe Storage") || Contains(folder, "Keys"))
  }

  /** The two entry names whose values are taken, "Chromium Safe Storage" and
      "Chrome Safe Storage". */
  const ChromiumEntry: string := "Chromium" + " " + "Safe Storage"
  const ChromeEntry: string := "Chrome" + " " + "Safe Storage"

  /** The entry names whose values are taken. */
  const WantedKeys: set<string> := {ChromiumEntry, ChromeEntry}

  /** Both wanted entry names are labels the Secret Service client accepts as well. */
  lemma WantedKeysAreLabels()
    ensures forall key :: key in WantedKeys ==> SecretService.LabelMatches(key)
  {
    SecretService.ChromiumSafeStorageAccepted();
    SecretService.ChromeSafeStorageAccepted();
  }

  /** The values of `m` stored under a wanted key: exactly the values stored under
      "Chromium Safe Storage" or "Chrome Safe Storage", every other entry ignored. */
  function Selected(m: map<string, string>): (vs: set<string>)
    ensures forall v :: v in vs <==>
              (ChromiumEntry in m && m[ChromiumEntry] == v) || (ChromeEntry in m && m[ChromeEntry] == v)
  {
    set key | key in m && key in WantedKeys :: m[key]
  }

  /** A password map yields at most two values. */
  lemma SelectedAtMostTwo(m: map<string, string>)
    ensures |Selected(m)| <= 2
  {
    var a: set<string> := if ChromiumEntry in m then {m[ChromiumEntry]} else {};
    var b: set<string> := if ChromeEntry in m then {m[ChromeEntry]} else {};
    assert Selected(m) == a + b;
  }

  /** The position of the first matching folder whose password map is empty, or `|folders|`. */
  function AbortAt(r: Replies, folders: seq<string>): (k: nat)
    ensures k <= |folders|
    ensures forall j :: 0 <= j < k ==> !(FolderMatches(folders[j]) && r.passwords(folders[j]) == map[])
    ensures k < |folders| ==> FolderMatches(folders[k]) && r.passwords(folders[k]) == map[]
  {
    if folders == [] then 0
    else if FolderMatches(folders[0]) && r.passwords(folders[0]) == map[] then 0
    else 1 + AbortAt(r, folders[1..])
  }

  /** The values the folder loop inserts while reading `folders` in order. */
  function Harvest(r: Replies, folders: seq<string>): set<string>
    decreases |folders|
  {
    if folders == [] then {}
    else Harvest(r, folders[..|folders| - 1]) +
         (if FolderMatches(folders[|folders| - 1]) then Selected(r.passwords(folders[|folders| - 1])) else {})
  }

  /** The client reaches the folder loop. */
  predicate ReachesFolders(r: Replies)
  {
    r.connected && r.walletName != "" && r.handle >= 0 && r.folders != []
  }

  /** The client reads every folder and closes the wallet. */
  predicate Completes(r: Replies)
  {
    ReachesFolders(r) && AbortAt(r, r.folders) == |r.folders|
  }

  /** What the run adds to the caller's set: the harvest of the folders before the abort. */
  function Found(r: Replies): set<string>
  {
    if ReachesFolders(r) then Harvest(r, r.folders[..AbortAt(r, r.folders)]) else {}
  }

  /** The `passwordList` requests for reading `folders` in order. */
  function PasswordEvents(version: int, handle: int, folders: seq<string>): seq<Event>
    decreases |folders|
  {
    if folders == [] then []
    else PasswordEvents(version, handle, folders[..|folders| - 1]) +
         (if FolderMatches(folders[|folders| - 1])
          then [PasswordListCall(version, handle, folders[|folders| - 1])] else [])
  }

  /** The requests of one run with a non-null set, stage by stage. */
  function Trace(version: int, r: Replies): seq<Event>
  {
    if !r.connected then [] else [NetworkWalletCall(version)] + AfterNetworkWallet(version, r)
  }

  function AfterNetworkWallet(version: int, r: Replies): seq<Event>
  {
    if r.walletName == "" then [] else [OpenCall(version, r.walletName)] + AfterOpen(version, r)
  }

  function AfterOpen(version: int, r: Replies): seq<Event>
  {
    if r.handle < 0 then [] else [FolderListCall(version, r.handle)] + AfterFolderList(version, r)
  }

  /** The folder loop up to and including the folder that aborts, then the two `close`
      requests when no folder aborted. */
  function AfterFolderList(version: int, r: Replies): seq<Event>
  {
    if r.folders == [] then []
    else if AbortAt(r, r.folders) < |r.folders| then
      PasswordEvents(version, r.handle, r.folders[..AbortAt(r, r.folders) + 1])
    else
      PasswordEvents(version, r.handle, r.folders) +
      [CloseWalletCall(version, r.walletName), CloseSessionCall(version, r.handle)]
  }

  /** `getSecret_Kwallet(version, secrets)`. A null `secrets` returns before any bus
      activity; otherwise the set gains exactly `Found(r)` and `trace` is what was sent. */
  method GetSecretKwallet(version: int, secrets: SecretSet?, r: Replies) returns (trace: seq<Event>)
    modifies secrets
    ensures secrets == null ==> trace == []
    ensures secrets != null ==> secrets.contents == old(secrets.contents) + Found(r)
    ensures secrets != null ==> trace == Trace(version, r)
  {
    if secrets == null {
      return [];
    }
    var con := new Connection();
    if !r.connected {
      return con.trace;
    }
    var destination := "org.kde.kwalletd" + IntToString(version);
    var path := "/modules/kwalletd" + IntToString(version);
    con.CallMethod(destination, path, Interface, "networkWallet", []);
    var walletName := r.walletName;
    if walletName == "" {
      return con.trace;
    }
    con.CallMethod(destination, path, Interface, "open", [Str(walletName), Int64(0), Str(AppId)]);
    var handle := r.handle;
    if handle < 0 {
      return con.trace;
    }
    con.CallMethod(destination, path, Interface, "folderList", [Int32(handle), Str(AppId)]);
    ghost var listed := con.trace;
    assert listed == [NetworkWalletCall(version), OpenCall(version, walletName), FolderListCall(version, handle)];
    var completed := FolderLoop(con, secrets, version, r);
    if !completed {
      RegroupThree(NetworkWalletCall(version), OpenCall(version, walletName), FolderListCall(version, handle),
              AfterFolderList(version, r));
      return con.trace;
    }
    con.CallMethod(destination, path, Interface, "close", [Str(walletName), Boolean(false)]);
    con.CallMethod(destination, path, Interface, "close", [Int32(handle), Boolean(false), Str(AppId)]);
    RegroupThree(NetworkWalletCall(version), OpenCall(version, walletName), FolderListCall(version, handle),
            AfterFolderList(version, r));
    trace := con.trace;
  }

  /** The folder loop: an empty folder list reads nothing; otherwise each matching folder's
      map is read and its wanted values inserted, until a matching folder's map is
      empty. `completed` is false exactly when the run must end there. */
  method FolderLoop(con: Connection, secrets: SecretSet, version: int, r: Replies)
    returns (completed: bool)
    requires r.connected && r.walletName != "" && r.handle >= 0
    modifies con, secrets
    ensures completed <==> Completes(r)
    ensures secrets.contents == old(secrets.contents) + Found(r)
    ensures completed ==>
              con.trace + [CloseWalletCall(version, r.walletName), CloseSessionCall(version, r.handle)] ==
              old(con.trace) + AfterFolderList(version, r)
    ensures !completed ==> con.trace == old(con.trace) + AfterFolderList(version, r)
  {
    if r.folders == [] {
      return false;
    }
    ghost var before := con.trace;
    completed := ScanFolders(con, secrets, version, r);
    if completed {
      CompletedLoop(version, r, before, con.trace);
    } else {
      AbortedLoop(version, r, before, con.trace);
    }
  }

  /** A loop that read every folder: the run completes, and the closes follow. */
  lemma CompletedLoop(version: int, r: Replies, before: seq<Event>, after: seq<Event>)
    requires ReachesFolders(r) && AbortAt(r, r.folders) == |r.folders|
    requires after == before + PasswordEvents(version, r.handle, r.folders[..AbortAt(r, r.folders)])
    ensures Completes(r)
    ensures Found(r) == Harvest(r, r.folders[..AbortAt(r, r.folders)])
    ensures after + [CloseWalletCall(version, r.walletName), CloseSessionCall(version, r.handle)] ==
            before + AfterFolderList(version, r)
  {
    assert r.folders[..AbortAt(r, r.folders)] == r.folders;
    CompletedRun(version, r);
  }

  /** A loop that stopped at an empty map: the run ends there. */
  lemma AbortedLoop(version: int, r: Replies, before: seq<Event>, after: seq<Event>)
    requires ReachesFolders(r) && AbortAt(r, r.folders) < |r.folders|
    requires after == before + PasswordEvents(version, r.handle, r.folders[..AbortAt(r, r.folders)]) +
                      [PasswordListCall(version, r.handle, r.folders[AbortAt(r, r.folders)])]
    ensures !Completes(r)
    ensures Found(r) == Harvest(r, r.folders[..AbortAt(r, r.folders)])
    ensures after == before + AfterFolderList(version, r)
  {
    AbortedRun(version, r, AbortAt(r, r.folders));
  }

  /** The loop itself: it reads the folders up to and including the first matching one
      whose map is empty, or all of them when there is none. */
  method ScanFolders(con: Connection, secrets: SecretSet, version: int, r: Replies)
    returns (completed: bool)
    modifies con, secrets
    ensures completed <==> AbortAt(r, r.folders) == |r.folders|
    ensures secrets.contents == old(secrets.contents) + Harvest(r, r.folders[..AbortAt(r, r.folders)])
    ensures completed ==>
              con.trace == old(con.trace) + PasswordEvents(version, r.handle, r.folders[..AbortAt(r, r.folders)])
    ensures !completed ==> AbortAt(r, r.folders) < |r.folders|
    ensures !completed ==>
              (con.trace == old(con.trace) + PasswordEvents(version, r.handle, r.folders[..AbortAt(r, r.folders)]) +
                            [PasswordListCall(version, r.handle, r.folders[AbortAt(r, r.folders)])])
  {
    var folders := r.folders;
    ghost var k := AbortAt(r, folders);
    var i := 0;
    while i < |folders|
      invariant 0 <= i <= k
      invariant secrets.contents == old(secrets.contents) + Harvest(r, folders[..i])
      invariant con.trace == old(con.trace) + PasswordEvents(version, r.handle, folders[..i])
    {
      var stop := ReadFolder(con, secrets, version, r, folders[i]);
      if stop {
        AbortHere(r, folders, i);
        return false;
      }
      FolderStep(version, r, folders, i);
      PastAbortCheck(r, folders, i);
      i := i + 1;
    }
    return true;
  }

  /** One iteration of the folder loop: a matching folder's password map is requested
      and its wanted values inserted; `stop` reports an empty map, which ends the run. */
  method ReadFolder(con: Connection, secrets: SecretSet, version: int, r: Replies, folder: string)
    returns (stop: bool)
    modifies con, secrets
    ensures stop <==> FolderMatches(folder) && r.passwords(folder) == map[]
    ensures con.trace == old(con.trace) +
              (if FolderMatches(folder) then [PasswordListCall(version, r.handle, folder)] else [])
    ensures stop ==> secrets.contents == old(secrets.contents)
    ensures !stop ==>
              secrets.contents == old(secrets.contents) +
                                  (if FolderMatches(folder) then Selected(r.passwords(folder)) else {})
  {
    stop := false;
    if FolderMatches(folder) {
      con.CallMethod(Destination(version), ObjectPathOf(version), Interface, "passwordList",
                     [Int32(r.handle), Str(folder), Str(AppId)]);
      var passwordMap := r.passwords(folder);
      if passwordMap == map[] {
        return true;
      }
      InsertWanted(secrets, passwordMap);
    }
  }

  /** A folder that aborts, read no later than the abort point, is the abort point. */
  lemma AbortHere(r: Replies, folders: seq<string>, i: nat)
    requires i <= AbortAt(r, folders) && i < |folders|
    requires FolderMatches(folders[i]) && r.passwords(folders[i]) == map[]
    ensures i == AbortAt(r, folders)
  {
  }

  /** Reading folder `i` extends the harvest and the requests by that folder's share. */
  lemma FolderStep(version: int, r: Replies, folders: seq<string>, i: nat)
    requires i < |folders|
    ensures Harvest(r, folders[..i + 1]) ==
              Harvest(r, folders[..i]) + (if FolderMatches(folders[i]) then Selected(r.passwords(folders[i])) else {})
    ensures PasswordEvents(version, r.handle, folders[..i + 1]) ==
              PasswordEvents(version, r.handle, folders[..i]) +
              (if FolderMatches(folders[i]) then [PasswordListCall(version, r.handle, folders[i])] else [])
  {
    assert folders[..i + 1][..i] == folders[..i];
  }

  /** A folder that does not abort, read before the abort point, lies strictly before it. */
  lemma PastAbortCheck(r: Replies, folders: seq<string>, i: nat)
    requires i <= AbortAt(r, folders) && i < |folders|
    requires !(FolderMatches(folders[i]) && r.passwords(folders[i]) == map[])
    ensures i < AbortAt(r, folders)
  {
  }

  /** A run that stops at folder `i`: what it found and sent up to there. */
  lemma AbortedRun(version: int, r: Replies, i: nat)
    requires ReachesFolders(r) && i <= AbortAt(r, r.folders) && i < |r.folders|
    requires FolderMatches(r.folders[i]) && r.passwords(r.folders[i]) == map[]
    ensures !Completes(r) && Found(r) == Harvest(r, r.folders[..i])
    ensures AfterFolderList(version, r) ==
              PasswordEvents(version, r.handle, r.folders[..i]) + [PasswordListCall(version, r.handle, r.folders[i])]
  {
    assert i == AbortAt(r, r.folders);
    FolderStep(version, r, r.folders, i);
  }

  /** A run that reads every folder: what it found and sent. */
  lemma CompletedRun(version: int, r: Replies)
    requires ReachesFolders(r) && AbortAt(r, r.folders) == |r.folders|
    ensures Completes(r) && Found(r) == Harvest(r, r.folders)
    ensures AfterFolderList(version, r) ==
              PasswordEvents(version, r.handle, r.folders) +
              [CloseWalletCall(version, r.walletName), CloseSessionCall(version, r.handle)]
  {
    assert r.folders[..|r.folders|] == r.folders;
  }

  /** The inner loop: every entry of the map whose key is wanted has its value inserted. */
  method InsertWanted(secrets: SecretSet, passwordMap: map<string, string>)
    modifies secrets
    ensures secrets.contents == old(secrets.contents) + Selected(passwordMap)
  {
    var remaining := passwordMap.Keys;
    while remaining != {}
      invariant remaining <= passwordMap.Keys
      invariant secrets.contents ==
                  old(secrets.contents) + SelectedAmong(passwordMap, passwordMap.Keys - remaining)
      decreases |remaining|
    {
      var key :| key in remaining;
      if key in WantedKeys {
        secrets.Insert(passwordMap[key]);
      }
      InsertStep(passwordMap, remaining, key);
      remaining := remaining - {key};
    }
    SelectedAmongAll(passwordMap, remaining);
  }

  /** The values stored under wanted keys among `keys`. */
  function SelectedAmong(m: map<string, string>, keys: set<string>): set<string>
  {
    set key | key in keys && key in m && key in WantedKeys :: m[key]
  }

  /** Taking `key` out of the keys still to visit adds its value, if wanted, to what
      the visited keys select. */
  lemma InsertStep(m: map<string, string>, remaining: set<string>, key: string)
    requires key in remaining && remaining <= m.Keys
    ensures SelectedAmong(m, m.Keys - (remaining - {key})) ==
              SelectedAmong(m, m.Keys - remaining) + (if key in WantedKeys then {m[key]} else {})
  {
    assert m.Keys - (remaining - {key}) == (m.Keys - remaining) + {key};
  }

  /** Once no key remains, the visited keys select exactly `Selected(m)`. */
  lemma SelectedAmongAll(m: map<string, string>, remaining: set<string>)
    requires remaining == {}
    ensures SelectedAmong(m, m.Keys - remaining) == Selected(m)
  {
    assert m.Keys - remaining == m.Keys;
  }

  /** The wallet daemon's names for KDE Frameworks 6 and 5. */
  lemma DaemonNames()
    ensures Destination(6) == "org.kde.kwalletd6" && ObjectPathOf(6) == "/modules/kwalletd6"
    ensures Destination(5) == "org.kde.kwalletd5" && ObjectPathOf(5) == "/modules/kwalletd5"
  {
    assert NatToString(6) == "6" && NatToString(5) == "5";
  }


  /** A value is harvested from `folders` exactly when some matching folder among them
      holds it under a wanted key. */
  lemma {:induction false} HarvestMembers(r: Replies, folders: seq<string>, v: string)
    ensures v in Harvest(r, folders) <==>
              exists j :: 0 <= j < |folders| && FolderMatches(folders[j]) && v in Selected(r.passwords(folders[j]))
    decreases |folders|
  {
    if folders != [] {
      var init := folders[..|folders| - 1];
      HarvestMembers(r, init, v);
      if exists j :: 0 <= j < |folders| && FolderMatches(folders[j]) && v in Selected(r.passwords(folders[j])) {
        var j :| 0 <= j < |folders| && FolderMatches(folders[j]) && v in Selected(r.passwords(folders[j]));
        if j < |init| {
          assert init[j] == folders[j];
        }
      }
    }
  }


  /** What the run adds to the caller's set: the wanted values of every matching folder
      before the first matching folder with an empty map, and nothing if the run stops
      before the folder loop. */
  lemma FoundMembers(r: Replies, v: string)
    ensures v in Found(r) <==>
              ReachesFolders(r) &&
              exists j :: 0 <= j < AbortAt(r, r.folders) && FolderMatches(r.folders[j]) &&
                          v in Selected(r.passwords(r.folders[j]))
  {
    if ReachesFolders(r) {
      var k := AbortAt(r, r.folders);
      HarvestMembers(r, r.folders[..k], v);
      if exists j :: 0 <= j < k && FolderMatches(r.folders[j]) && v in Selected(r.passwords(r.folders[j])) {
        var j :| 0 <= j < k && FolderMatches(r.folders[j]) && v in Selected(r.passwords(r.folders[j]));
        assert r.folders[..k][j] == r.folders[j];
      }
    }
  }

  /** A missing bus, an empty wallet name, a negative handle or an empty folder list ends
      the run before any folder is read: nothing is inserted and nothing is closed. */
  lemma EarlyReturns(version: int, r: Replies)
    ensures !r.connected ==> Found(r) == {} && Trace(version, r) == []
    ensures r.connected && r.walletName == "" ==>
              Found(r) == {} && Trace(version, r) == [NetworkWalletCall(version)]
    ensures r.connected && r.walletName != "" && r.handle < 0 ==>
              Found(r) == {} && Trace(version, r) == [NetworkWalletCall(version), OpenCall(version, r.walletName)]
    ensures r.connected && r.walletName != "" && r.handle >= 0 && r.folders == [] ==>
              Found(r) == {} &&
              Trace(version, r) == [NetworkWalletCall(version), OpenCall(version, r.walletName),
                                    FolderListCall(version, r.handle)]
  {
  }

  /** Every request of the folder loop is a `passwordList` of a matching folder among
      those read. */
  lemma {:induction false} PasswordEventShape(version: int, handle: int, folders: seq<string>)
    ensures forall e :: e in PasswordEvents(version, handle, folders) ==>
              e.MethodCall? && e.member == "passwordList" && |e.args| == 3 && e.args[1].Str? &&
              e == PasswordListCall(version, handle, e.args[1].s) &&
              e.args[1].s in folders && FolderMatches(e.args[1].s)
    decreases |folders|
  {
    if folders != [] {
      var init := folders[..|folders| - 1];
      PasswordEventShape(version, handle, init);
      assert forall x :: x in init ==> x in folders;
    }
  }

  /** The requests before the folder loop of a run that reaches it. */
  function Preamble(version: int, r: Replies): seq<Event>
  {
    [NetworkWalletCall(version), OpenCall(version, r.walletName), FolderListCall(version, r.handle)]
  }

  lemma TraceOfFolders(version: int, r: Replies)
    requires ReachesFolders(r)
    ensures Trace(version, r) == Preamble(version, r) + AfterFolderList(version, r)
  {
    RegroupThree(NetworkWalletCall(version), OpenCall(version, r.walletName), FolderListCall(version, r.handle),
            AfterFolderList(version, r));
  }

  /** Only `close` requests are `close` requests: none of the other requests is one. */
  predicate NoClose(events: seq<Event>)
  {
    forall e :: e in events ==> !(e.MethodCall? && e.member == "close")
  }

  lemma PreambleNoClose(version: int, r: Replies)
    ensures NoClose(Preamble(version, r))
  {
  }

  lemma PasswordEventsNoClose(version: int, handle: int, folders: seq<string>)
    ensures NoClose(PasswordEvents(version, handle, folders))
  {
    PasswordEventShape(version, handle, folders);
  }

  lemma NoCloseAppend(a: seq<Event>, b: seq<Event>)
    requires NoClose(a) && NoClose(b)
    ensures NoClose(a + b)
  {
  }

  /** A run that stops before the folder loop sends no `close`. */
  lemma EarlyRunNoClose(version: int, r: Replies)
    requires !ReachesFolders(r)
    ensures NoClose(Trace(version, r))
  {
    EarlyReturns(version, r);
  }

  /** The wallet and the session are closed, in that order and as the last two requests,
      exactly when every folder was read; every early return, including the one for an
      empty password map, skips both. */
  lemma ClosesOnlyOnCompletion(version: int, r: Replies)
    ensures Completes(r) ==>
              |Trace(version, r)| >= 2 &&
              Trace(version, r)[|Trace(version, r)| - 2..] ==
                [CloseWalletCall(version, r.walletName), CloseSessionCall(version, r.handle)]
    ensures !Completes(r) ==> NoClose(Trace(version, r))
  {
    if Completes(r) {
      CompletedRunCloses(version, r);
    } else if !ReachesFolders(r) {
      EarlyRunNoClose(version, r);
    } else {
      AbortedRunNoClose(version, r);
    }
  }

  lemma CompletedRunCloses(version: int, r: Replies)
    requires Completes(r)
    ensures |Trace(version, r)| >= 2 &&
            Trace(version, r)[|Trace(version, r)| - 2..] ==
              [CloseWalletCall(version, r.walletName), CloseSessionCall(version, r.handle)]
  {
    TraceOfFolders(version, r);
    CompletedRun(version, r);
    LastTwo(Preamble(version, r), PasswordEvents(version, r.handle, r.folders),
            CloseWalletCall(version, r.walletName), CloseSessionCall(version, r.handle));
  }

  lemma AbortedRunNoClose(version: int, r: Replies)
    requires ReachesFolders(r) && !Completes(r)
    ensures NoClose(Trace(version, r))
  {
    TraceOfFolders(version, r);
    var k := AbortAt(r, r.folders);
    PreambleNoClose(version, r);
    PasswordEventsNoClose(version, r.handle, r.folders[..k + 1]);
    NoCloseAppend(Preamble(version, r), AfterFolderList(version, r));
  }

  /** A matching folder with an empty password map ends the run right after its
      `passwordList`: no later folder is read. */
  lemma EmptyMapEndsRun(version: int, r: Replies)
    requires ReachesFolders(r) && AbortAt(r, r.folders) < |r.folders|
    ensures var k := AbortAt(r, r.folders);
            |Trace(version, r)| >= 1 &&
            Trace(version, r)[|Trace(version, r)| - 1] == PasswordListCall(version, r.handle, r.folders[k])
  {
    var k := AbortAt(r, r.folders);
    TraceOfFolders(version, r);
    AbortedRun(version, r, k);
    LastOne(Preamble(version, r), PasswordEvents(version, r.handle, r.folders[..k]),
            PasswordListCall(version, r.handle, r.folders[k]));
  }

  /** The values inserted from the folders before an empty map stay in the set. */
  lemma EarlierValuesKept(r: Replies)
    requires ReachesFolders(r)
    ensures forall j :: 0 <= j < AbortAt(r, r.folders) && FolderMatches(r.folders[j]) ==>
              Selected(r.passwords(r.folders[j])) <= Found(r)
  {
    forall j, v | 0 <= j < AbortAt(r, r.folders) && FolderMatches(r.folders[j]) &&
                  v in Selected(r.passwords(r.folders[j]))
      ensures v in Found(r)
    {
      FoundMembers(r, v);
    }
  }

  /** The folder heuristic is the label heuristic without its "Control" exclusion, so the
      Chromium "Control" folder is read although its label would be refused. */
  lemma FolderHeuristicDropsControl(name: string)
    ensures SecretService.LabelMatches(name) <==> FolderMatches(name) && !Contains(name, "Control")
  {
  }

  lemma ControlFolderNamesChromium()
    ensures Contains("Chromium" + " " + "Safe Storage" + " " + "Control", "Chromium")
  {
    var name := "Chromium";
    ContainsSelf(name);
    ContainsLeft(name, " ", name);
    ContainsLeft(name + " ", "Safe Storage", name);
    ContainsLeft(name + " " + "Safe Storage", " ", name);
    ContainsLeft(name + " " + "Safe Storage" + " ", "Control", name);
  }

  lemma ControlFolderNamesStore()
    ensures Contains("Chromium" + " " + "Safe Storage" + " " + "Control", "Safe Storage")
  {
    var store := "Safe Storage";
    ContainsSelf(store);
    ContainsRight("Chromium" + " ", store, store);
    ContainsLeft("Chromium" + " " + store, " ", store);
    ContainsLeft("Chromium" + " " + store + " ", "Control", store);
  }

  /** The Chromium "Control" folder is read. */
  lemma ControlFolderRead()
    ensures FolderMatches("Chromium" + " " + "Safe Storage" + " " + "Control")
  {
    ControlFolderNamesChromium();
    ControlFolderNamesStore();
  }
}
