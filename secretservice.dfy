/// `getSecret_SecretService`: the freedesktop.org Secret Service client. It opens a
/// plain session, unlocks the default collection (prompting the user when the
/// service asks for it), checks the collection is unlocked, lists its items, and
/// returns the `value` of the `(oayays)` Secret of the first item whose label looks
/// like a Chrome/Chromium storage key and whose secret is not empty. The collection
/// is locked and the session closed only when a secret was found.
module SecretService {
  import opened Bytes
  import opened Seqs
  import opened Text
  import opened DBus

  const Service: string := "org.freedesktop.secrets"
  const ServicePath: string := "/org/freedesktop/secrets"
  const ServiceIface: string := "org.freedesktop.Secret.Service"
  const DefaultCollection: string := "/org/freedesktop/secrets/aliases/default"
  const PropertiesIface: string := "org.freedesktop.DBus.Properties"
  const PromptIface: string := "org.freedesktop.Secret.Prompt"
  const ItemIface: string := "org.freedesktop.Secret.Item"

  /** What the bus answers during one run, as the typed `get<>` calls extract it. */
  datatype Replies = Replies(
    connected: bool,               // DBusCon::ok()
    session: string,               // OpenSession: object path, signature "vo", index 1
    prompt: string,                // Unlock: prompt path, signature "aoo", index 1
    matchAccepted: bool,           // matchSignal("member='Completed'")
    completed: bool,               // waitSignal: Completed arrived within 20 x 2500 ms
    locked: bool,                  // Get(Collection, "Locked")
    items: seq<string>,            // Get(Collection, "Items")
    store: ItemStore)              // what each item answers

  /** The per-item answers, by item path. */
  datatype ItemStore = ItemStore(
    labelOf: string -> string,     // Get(Item, "Label")
    secretOf: string -> seq<byte>) // GetSecret: field 2 (`value`) of the Secret struct

  // The requests, in the order the client sends them.

  const OpenSessionCall: Event :=
    MethodCall(Service, ServicePath, ServiceIface, "OpenSession", [Str("plain"), Variant(Str(""))])
  const UnlockCall: Event :=
    MethodCall(Service, ServicePath, ServiceIface, "Unlock", [Array([ObjectPath(DefaultCollection)])])
  const MatchCompleted: Event := AddMatch("member='Completed'")
  function PromptCall(prompt: string): Event
  {
    MethodCall(Service, prompt, PromptIface, "Prompt", [Str("")])
  }
  const WaitCompleted: Event := WaitSignal(20, 2500, PromptIface, "Completed")
  const GetLockedCall: Event :=
    MethodCall(Service, DefaultCollection, PropertiesIface, "Get",
               [Str("org.freedesktop.Secret.Collection"), Str("Locked")])
  const GetItemsCall: Event :=
    MethodCall(Service, DefaultCollection, PropertiesIface, "Get",
               [Str("org.freedesktop.Secret.Collection"), Str("Items")])
  function GetLabelCall(item: string): Event
  {
    MethodCall(Service, item, PropertiesIface, "Get", [Str(ItemIface), Str("Label")])
  }
  function GetSecretCall(item: string, session: string): Event
  {
    MethodCall(Service, item, ItemIface, "GetSecret", [ObjectPath(session)])
  }
  const LockCall: Event :=
    MethodCall(Service, ServicePath, ServiceIface, "Lock", [Array([ObjectPath(DefaultCollection)])])
  function CloseCall(session: string): Event
  {
    MethodCall(Service, session, "org.freedesktop.Secret.Session", "Close", [])
  }

  /** The label heuristic: a Chrome or Chromium key store, but not its "Control" entry.
      Each `find(...) != std::string::npos` of the source is an occurrence at some
      position (`Text.FindAgreesWithContains`). */
  predicate LabelMatches(itemLabel: string): (b: bool)
    ensures b <==>
              && ((exists i :: OccursAt(itemLabel, "Chrome", i)) || (exists i :: OccursAt(itemLabel, "Chromium", i)))
              && ((exists i :: OccursAt(itemLabel, "Safe Storage", i)) || (exists i :: OccursAt(itemLabel, "Keys", i)))
              && !(exists i :: OccursAt(itemLabel, "Control", i))
  {
    ContainsIffOccurs(itemLabel, "Chrome");
    ContainsIffOccurs(itemLabel, "Chromium");
    ContainsIffOccurs(itemLabel, "Safe Storage");
    ContainsIffOccurs(itemLabel, "Keys");
    ContainsIffOccurs(itemLabel, "Control");
    && (Contains(itemLabel, "Chrome") || Contains(itemLabel, "Chromium"))
    && (Contains(itemLabel, "Safe Storage") || Contains(itemLabel, "Keys"))
    && !Contains(itemLabel, "Control")
  }

  /** An item whose secret the client takes: its label passes and its secret is not empty. */
  predicate Chosen(store: ItemStore, item: string)
  {
    LabelMatches(store.labelOf(item)) && store.secretOf(item) != []
  }

  /** The position of the first chosen item, or `|items|` when there is none. */
  function FirstChosen(store: ItemStore, items: seq<string>): (k: nat)
    ensures k <= |items|
    ensures forall j :: 0 <= j < k ==> !Chosen(store, items[j])
    ensures k < |items| ==> Chosen(store, items[k])
  {
    if items == [] then 0
    else if Chosen(store, items[0]) then 0
    else 1 + FirstChosen(store, items[1..])
  }

  /** The client reaches the item scan. */
  predicate ReachesScan(r: Replies)
  {
    r.connected && r.session != "" && r.prompt != "" && !r.locked && r.items != []
  }

  /** The secret bytes the client ends up with; empty means failure. */
  function Result(r: Replies): seq<byte>
  {
    if !ReachesScan(r) then [] else ScanSecret(r.store, r.items)
  }

  /** The requests for one visited item: its label, then its secret if the label passes. */
  function ItemEvents(store: ItemStore, session: string, item: string): seq<Event>
  {
    [GetLabelCall(item)] + (if LabelMatches(store.labelOf(item)) then [GetSecretCall(item, session)] else [])
  }

  /** The requests for visiting `items` in order. */
  function ScanEvents(store: ItemStore, session: string, items: seq<string>): seq<Event>
    decreases |items|
  {
    if items == [] then [] else ItemEvents(store, session, items[0]) + ScanEvents(store, session, items[1..])
  }

  /** The item loop as the client runs it: each item is visited in turn, and the first
      chosen one ends the loop, followed by the `Lock` and `Close` teardown. */
  function ScanRun(store: ItemStore, session: string, items: seq<string>): seq<Event>
    decreases |items|
  {
    if items == [] then []
    else ItemEvents(store, session, items[0]) +
         (if Chosen(store, items[0]) then [LockCall, CloseCall(session)] else ScanRun(store, session, items[1..]))
  }

  /** The secret the item loop ends with: that of the first chosen item, or nothing. */
  function ScanSecret(store: ItemStore, items: seq<string>): seq<byte>
    decreases |items|
  {
    if items == [] then []
    else if Chosen(store, items[0]) then store.secretOf(items[0])
    else ScanSecret(store, items[1..])
  }

  /** The prompt sub-sequence: only when the Unlock answer is a real prompt, not `"/"`. */
  function PromptEvents(prompt: string): seq<Event>
  {
    if prompt == "/" then [] else [MatchCompleted, PromptCall(prompt), WaitCompleted]
  }

  /** The requests of one run, stage by stage; each stage ends the run on its failure. */
  function Trace(r: Replies): seq<Event>
  {
    if !r.connected then [] else [OpenSessionCall] + AfterOpenSession(r)
  }

  function AfterOpenSession(r: Replies): seq<Event>
  {
    if r.session == "" then [] else [UnlockCall] + AfterUnlock(r)
  }

  function AfterUnlock(r: Replies): seq<Event>
  {
    if r.prompt == "" then [] else PromptEvents(r.prompt) + [GetLockedCall] + AfterLockedCheck(r)
  }

  function AfterLockedCheck(r: Replies): seq<Event>
  {
    if r.locked then [] else [GetItemsCall] + AfterItems(r)
  }

  /** The item scan, up to and including the chosen item, then the teardown if one was chosen. */
  function AfterItems(r: Replies): seq<Event>
  {
    ScanRun(r.store, r.session, r.items)
  }

  /** `getSecret_SecretService()`. The client owns its connection; `trace` is what it sent. */
  method GetSecretSecretService(r: Replies) returns (secret: string, trace: seq<Event>)
    ensures secret == BytesToString(Result(r))
    ensures trace == Trace(r)
  {
    var con := new Connection();
    if !r.connected {
      return "", con.trace;
    }
    con.CallMethod(Service, ServicePath, ServiceIface, "OpenSession", [Str("plain"), Variant(Str(""))]);
    var session := r.session;
    if session == "" {
      return "", con.trace;
    }
    con.CallMethod(Service, ServicePath, ServiceIface, "Unlock", [Array([ObjectPath(DefaultCollection)])]);
    assert con.trace == [OpenSessionCall, UnlockCall];
    var secretBytes := Unlocked(con, r);
    assert Trace(r) == [OpenSessionCall] + ([UnlockCall] + AfterUnlock(r));
    ConsTwo(OpenSessionCall, UnlockCall, AfterUnlock(r));
    secret := BytesToString(secretBytes);
    trace := con.trace;
  }

  /** Everything after the `Unlock` request: the prompt if the service asks for one, the
      `Locked` check, the item listing and scan, and the teardown after a success. */
  method Unlocked(con: Connection, r: Replies) returns (secretBytes: seq<byte>)
    requires r.connected && r.session != ""
    modifies con
    ensures secretBytes == Result(r)
    ensures con.trace == old(con.trace) + AfterUnlock(r)
  {
    var prompt := r.prompt;
    if prompt == "" {
      return [];
    }
    ghost var before := con.trace;
    PromptIfAsked(con, prompt, r);
    secretBytes := LockedCheck(con, r);
    Associate(before, PromptEvents(prompt), [GetLockedCall] + AfterLockedCheck(r));
  }

  /** The prompt step: a prompt other than `"/"` registers the match rule, calls `Prompt`
      and waits for `Completed`; neither a refused rule nor a timeout stops the client. */
  method PromptIfAsked(con: Connection, prompt: string, r: Replies)
    modifies con
    ensures con.trace == old(con.trace) + PromptEvents(prompt)
  {
    if prompt != "/" {
      var registered := con.MatchSignal("member='Completed'", r.matchAccepted);  // failure only warns
      con.CallMethod(Service, prompt, PromptIface, "Prompt", [Str("")]);
      var arrived := con.Wait(20, 2500, PromptIface, "Completed", r.completed);  // failure only logs
    }
  }

  /** The `Locked` check, then the item listing and what follows it. */
  method LockedCheck(con: Connection, r: Replies) returns (secretBytes: seq<byte>)
    requires r.connected && r.session != "" && r.prompt != ""
    modifies con
    ensures secretBytes == Result(r)
    ensures con.trace == old(con.trace) + ([GetLockedCall] + AfterLockedCheck(r))
  {
    con.CallMethod(Service, DefaultCollection, PropertiesIface, "Get",
                   [Str("org.freedesktop.Secret.Collection"), Str("Locked")]);
    if r.locked {
      return [];
    }
    con.CallMethod(Service, DefaultCollection, PropertiesIface, "Get",
                   [Str("org.freedesktop.Secret.Collection"), Str("Items")]);
    secretBytes := Listed(con, r);
    AppendTwo(old(con.trace), GetLockedCall, GetItemsCall, AfterItems(r));
  }

  /** The item list is in hand: scan it, and lock and close on success. */
  method Listed(con: Connection, r: Replies) returns (secretBytes: seq<byte>)
    requires ReachesScan(r) || r.items == []
    modifies con
    ensures secretBytes == (if r.items == [] then [] else Result(r))
    ensures con.trace == old(con.trace) + AfterItems(r)
  {
    var items := r.items;
    if items == [] {
      return [];
    }
    secretBytes := ScanItems(con, r.store, r.session, items);
    if secretBytes == [] {
      return;
    }
    ghost var scanned := con.trace;
    con.CallMethod(Service, ServicePath, ServiceIface, "Lock", [Array([ObjectPath(DefaultCollection)])]);
    con.CallMethod(Service, r.session, "org.freedesktop.Secret.Session", "Close", []);
    AppendPair(scanned, LockCall, CloseCall(r.session));
  }

  /** The item loop of `getSecret_SecretService`: for each item read its label; for a
      passing label fetch the secret, and stop at the first non-empty one. A passing
      item with an empty secret leaves `secret_bytes` empty and the scan goes on. The
      teardown that follows a success is sent by the caller. */
  method ScanItems(con: Connection, store: ItemStore, session: string, items: seq<string>)
    returns (secretBytes: seq<byte>)
    modifies con
    ensures secretBytes == ScanSecret(store, items)
    ensures secretBytes == [] ==> con.trace == old(con.trace) + ScanRun(store, session, items)
    ensures secretBytes != [] ==>
              con.trace + [LockCall, CloseCall(session)] == old(con.trace) + ScanRun(store, session, items)
  {
    var i := 0;
    while i < |items|
      invariant 0 <= i <= |items|
      invariant ScanSecret(store, items[i..]) == ScanSecret(store, items)
      invariant con.trace + ScanRun(store, session, items[i..]) == old(con.trace) + ScanRun(store, session, items)
    {
      ghost var before := con.trace;
      secretBytes := VisitItem(con, store, session, items[i]);
      ScanRunStep(store, session, items, i);
      if secretBytes != [] {
        Associate(before, ItemEvents(store, session, items[i]), [LockCall, CloseCall(session)]);
        return;
      }
      Associate(before, ItemEvents(store, session, items[i]), ScanRun(store, session, items[i + 1..]));
      i := i + 1;
    }
    secretBytes := [];
  }

  /** One iteration of the item loop: read the label, and for a passing label the secret;
      `secretBytes` is non-empty exactly when the item is chosen. */
  method VisitItem(con: Connection, store: ItemStore, session: string, item: string)
    returns (secretBytes: seq<byte>)
    modifies con
    ensures con.trace == old(con.trace) + ItemEvents(store, session, item)
    ensures secretBytes == (if LabelMatches(store.labelOf(item)) then store.secretOf(item) else [])
    ensures secretBytes != [] <==> Chosen(store, item)
  {
    con.CallMethod(Service, item, PropertiesIface, "Get", [Str(ItemIface), Str("Label")]);
    var itemLabel := store.labelOf(item);
    secretBytes := [];
    if LabelMatches(itemLabel) {
      con.CallMethod(Service, item, ItemIface, "GetSecret", [ObjectPath(session)]);
      secretBytes := store.secretOf(item);
    }
  }

  /** The loop from item `i` on: visit it, then stop if it is chosen or go on with the rest. */
  lemma ScanRunStep(store: ItemStore, session: string, items: seq<string>, i: nat)
    requires i < |items|
    ensures ScanRun(store, session, items[i..]) ==
              ItemEvents(store, session, items[i]) +
              (if Chosen(store, items[i]) then [LockCall, CloseCall(session)] else ScanRun(store, session, items[i + 1..]))
    ensures ScanSecret(store, items[i..]) ==
              if Chosen(store, items[i]) then store.secretOf(items[i]) else ScanSecret(store, items[i + 1..])
  {
    assert items[i..][0] == items[i];
    assert items[i..][1..] == items[i + 1..];
  }

  /** The loop ends with the secret of the first chosen item, or with nothing. */
  lemma {:induction false} ScanSecretIsFirstChosen(store: ItemStore, items: seq<string>)
    ensures ScanSecret(store, items) ==
              if FirstChosen(store, items) < |items| then store.secretOf(items[FirstChosen(store, items)]) else []
    decreases |items|
  {
    if items != [] && !Chosen(store, items[0]) {
      ScanSecretIsFirstChosen(store, items[1..]);
    }
  }

  /** The loop visits the items up to and including the first chosen one and then tears
      down; with no chosen item it visits them all. */
  lemma {:induction false} ScanRunStopsAtFirstChosen(store: ItemStore, session: string, items: seq<string>)
    ensures FirstChosen(store, items) < |items| ==>
              ScanRun(store, session, items) ==
              ScanEvents(store, session, items[..FirstChosen(store, items) + 1]) + [LockCall, CloseCall(session)]
    ensures FirstChosen(store, items) == |items| ==>
              ScanRun(store, session, items) == ScanEvents(store, session, items)
    decreases |items|
  {
    if items != [] {
      var rest := items[1..];
      var k := FirstChosen(store, items);
      if Chosen(store, items[0]) {
        assert items[..1][1..] == [];
        assert ScanEvents(store, session, items[..1]) == ItemEvents(store, session, items[0]);
      } else {
        ScanRunStopsAtFirstChosen(store, session, rest);
        var visit := ItemEvents(store, session, items[0]);
        if k < |items| {
          var prefix := items[..k + 1];
          assert prefix[0] == items[0] && prefix[1..] == rest[..k];
          Associate(visit, ScanEvents(store, session, rest[..k]), [LockCall, CloseCall(session)]);
        } else {
          assert rest == items[1..];
        }
      }
    }
  }

  /** A label made of a browser name, a space and a store name names both. */
  lemma BrowserStoreNamed(browser: string, store: string)
    ensures Contains(browser + " " + store, browser)
    ensures Contains(browser + " " + store, store)
  {
    ContainsSelf(browser);
    ContainsLeft(browser, " ", browser);
    ContainsLeft(browser + " ", store, browser);
    ContainsSelf(store);
    ContainsRight(browser + " ", store, store);
  }

  /** Such a label holds no `C` after its first character, so it does not hold "Control". */
  lemma BrowserStoreNotControl(browser: string, store: string)
    requires browser == "Chrome" || browser == "Chromium"
    requires store == "Safe Storage" || store == "Keys"
    ensures !Contains(browser + " " + store, "Control")
  {
    assert forall i :: 1 <= i < |browser| ==> browser[i] != 'C';
    assert forall i :: 0 <= i < |store| ==> store[i] != 'C';
    TailLacksInConcat(browser, " ", 'C');
    TailLacksInConcat(browser + " ", store, 'C');
    assert (browser + " " + store)[1] == browser[1];
    NotHeadThenMissing(browser + " " + store, "Control");
  }

  lemma TailLacksInConcat(a: string, b: string, x: char)
    requires |a| >= 1 && forall i :: 1 <= i < |a| ==> a[i] != x
    requires forall i :: 0 <= i < |b| ==> b[i] != x
    ensures forall i :: 1 <= i < |a + b| ==> (a + b)[i] != x
  {
    forall i | 1 <= i < |a + b|
      ensures (a + b)[i] != x
    {
      if i < |a| {
        assert (a + b)[i] == a[i];
      } else {
        assert (a + b)[i] == b[i - |a|];
      }
    }
  }

  /** A label made of a browser name, a space and a store name passes the heuristic. */
  lemma BrowserStoreLabel(browser: string, store: string)
    requires browser == "Chrome" || browser == "Chromium"
    requires store == "Safe Storage" || store == "Keys"
    ensures LabelMatches(browser + " " + store)
  {
    BrowserStoreNamed(browser, store);
    BrowserStoreNotControl(browser, store);
  }

  /** The key-store labels Chromium and Chrome write pass the heuristic. */
  lemma ChromiumSafeStorageAccepted()
    ensures LabelMatches("Chromium" + " " + "Safe Storage")
  {
    BrowserStoreLabel("Chromium", "Safe Storage");
  }

  lemma ChromeSafeStorageAccepted()
    ensures LabelMatches("Chrome" + " " + "Safe Storage")
  {
    BrowserStoreLabel("Chrome", "Safe Storage");
  }

  lemma ChromiumKeysAccepted()
    ensures LabelMatches("Chromium" + " " + "Keys")
  {
    BrowserStoreLabel("Chromium", "Keys");
  }

  /** The "Control" entry is refused even though it names the browser and the store. */
  lemma ControlEntryRefused()
    ensures !LabelMatches("Chromium" + " " + "Safe Storage" + " " + "Control")
  {
    ContainsSelf("Control");
    ContainsRight("Chromium" + " " + "Safe Storage" + " ", "Control", "Control");
  }

  /** A label naming neither browser is refused. */
  lemma OtherBrowserRefused(itemLabel: string)
    requires itemLabel == "Firefox Keys"
    ensures !LabelMatches(itemLabel)
  {
    MissingFirstChar(itemLabel, "Chrome");
    MissingFirstChar(itemLabel, "Chromium");
  }

  /** The client returns a secret exactly when it reaches the item scan and some item is
      chosen; the secret is then that of the first chosen item in list order. Every
      other run ends at one of the five early returns with nothing. */
  lemma ResultIsFirstChosenSecret(r: Replies)
    ensures Result(r) != [] <==>
              ReachesScan(r) && exists j :: 0 <= j < |r.items| && Chosen(r.store, r.items[j])
    ensures Result(r) != [] ==>
              exists j :: 0 <= j < |r.items| && Chosen(r.store, r.items[j]) &&
                          Result(r) == r.store.secretOf(r.items[j]) &&
                          forall m :: 0 <= m < j ==> !Chosen(r.store, r.items[m])
  {
    if ReachesScan(r) {
      ScanSecretIsFirstChosen(r.store, r.items);
      var k := FirstChosen(r.store, r.items);
      if exists j :: 0 <= j < |r.items| && Chosen(r.store, r.items[j]) {
        var j :| 0 <= j < |r.items| && Chosen(r.store, r.items[j]);
        assert k <= j;
      }
      if k < |r.items| {
        assert Chosen(r.store, r.items[k]);
      }
    }
  }

  /** The five early returns: each yields no secret. */
  lemma AbortPoints(r: Replies)
    ensures !r.connected ==> Result(r) == [] && Trace(r) == []
    ensures r.connected && r.session == "" ==> Result(r) == [] && Trace(r) == [OpenSessionCall]
    ensures r.connected && r.session != "" && r.prompt == "" ==>
              Result(r) == [] && Trace(r) == [OpenSessionCall, UnlockCall]
    ensures r.locked || r.items == [] ==> Result(r) == []
    ensures ReachesScan(r) && FirstChosen(r.store, r.items) == |r.items| ==> Result(r) == []
  {
    if ReachesScan(r) {
      ScanSecretIsFirstChosen(r.store, r.items);
    }
  }

  /** The requests up to and including the `Locked` check: `OpenSession`, `Unlock`, then,
      only when the service hands back a prompt other than `"/"`, the match rule, the
      `Prompt` call and the wait, in that order. */
  lemma PromptBranch(r: Replies)
    requires r.connected && r.session != "" && r.prompt != ""
    ensures r.prompt == "/" ==>
              |Trace(r)| >= 3 && Trace(r)[..3] == [OpenSessionCall, UnlockCall, GetLockedCall]
    ensures r.prompt != "/" ==>
              |Trace(r)| >= 6 &&
              Trace(r)[..6] == [OpenSessionCall, UnlockCall, MatchCompleted, PromptCall(r.prompt),
                                WaitCompleted, GetLockedCall]
  {
    TraceThroughLocked(r);
    var head := [OpenSessionCall, UnlockCall] + PromptEvents(r.prompt) + [GetLockedCall];
    HeadOfConcat(Trace(r), head, AfterLockedCheck(r));
    if r.prompt == "/" {
      assert head == [OpenSessionCall, UnlockCall, GetLockedCall];
    } else {
      assert head == [OpenSessionCall, UnlockCall, MatchCompleted, PromptCall(r.prompt),
                      WaitCompleted, GetLockedCall];
    }
  }

  /** The requests of a run that gets a prompt, up to the `Locked` check, then the rest. */
  lemma TraceThroughLocked(r: Replies)
    requires r.connected && r.session != "" && r.prompt != ""
    ensures Trace(r) == [OpenSessionCall, UnlockCall] + PromptEvents(r.prompt) + [GetLockedCall] +
                        AfterLockedCheck(r)
  {
    StagesThenConcat(Trace(r), OpenSessionCall, AfterOpenSession(r), UnlockCall, AfterUnlock(r),
                     PromptEvents(r.prompt) + [GetLockedCall], AfterLockedCheck(r));
  }

  /** Neither a refused match rule nor a wait that times out changes what the client
      does next: the `Locked` property decides. */
  lemma WaitOutcomeIgnored(r: Replies, matchAccepted: bool, completed: bool)
    ensures Trace(r.(matchAccepted := matchAccepted, completed := completed)) == Trace(r)
    ensures Result(r.(matchAccepted := matchAccepted, completed := completed)) == Result(r)
  {
    var r' := r.(matchAccepted := matchAccepted, completed := completed);
    assert r'.store == r.store && r'.items == r.items && r'.session == r.session;
    assert AfterItems(r') == AfterItems(r);
    assert AfterLockedCheck(r') == AfterLockedCheck(r);
    assert AfterUnlock(r') == AfterUnlock(r);
    assert AfterOpenSession(r') == AfterOpenSession(r);
  }

  /** The requests before the item scan of a run that reaches it. */
  function Preamble(prompt: string): seq<Event>
  {
    [OpenSessionCall, UnlockCall] + PromptEvents(prompt) + [GetLockedCall, GetItemsCall]
  }

  lemma TraceOfScan(r: Replies)
    requires ReachesScan(r)
    ensures Trace(r) == Preamble(r.prompt) + AfterItems(r)
  {
    var rest := AfterItems(r);
    assert Trace(r) == [OpenSessionCall] + ([UnlockCall] + (PromptEvents(r.prompt) + [GetLockedCall] + ([GetItemsCall] + rest)));
    RegroupAroundRun(OpenSessionCall, UnlockCall, PromptEvents(r.prompt), GetLockedCall, GetItemsCall, rest);
  }

  /** Every request of the item scan is a label read of a listed item, or a secret read,
      within the session, of a listed item whose label passed. */
  lemma {:induction false} ScanEventShape(store: ItemStore, session: string, items: seq<string>)
    ensures forall e :: e in ScanEvents(store, session, items) ==>
              e.MethodCall? && e.path in items &&
              (e == GetLabelCall(e.path) ||
               (e == GetSecretCall(e.path, session) && LabelMatches(store.labelOf(e.path))))
    decreases |items|
  {
    if items != [] {
      var rest := items[1..];
      ScanEventShape(store, session, rest);
      forall e | e in ScanEvents(store, session, items)
        ensures e.MethodCall? && e.path in items &&
                (e == GetLabelCall(e.path) ||
                 (e == GetSecretCall(e.path, session) && LabelMatches(store.labelOf(e.path))))
      {
        if e in ScanEvents(store, session, rest) {
          assert e.path in rest;
        }
      }
    }
  }

  /** `Lock` and then `Close` on the session end the run exactly when a secret was found;
      every early return skips both. */
  lemma TeardownOnlyOnSuccess(r: Replies)
    ensures LockCall in Trace(r) <==> Result(r) != []
    ensures CloseCall(r.session) in Trace(r) <==> Result(r) != []
    ensures Result(r) != [] ==>
              |Trace(r)| >= 2 && Trace(r)[|Trace(r)| - 2..] == [LockCall, CloseCall(r.session)]
  {
    if !ReachesScan(r) {
      NoTeardownBeforeScan(r);
    } else {
      var k := FirstChosen(r.store, r.items);
      ScanSecretIsFirstChosen(r.store, r.items);
      PreambleHasNoTeardown(r.prompt, r.session);
      if k < |r.items| {
        var visited := r.items[..k + 1];
        ChosenRunTrace(r);
        ScanHasNoTeardown(r.store, r.session, visited, r.session);
        EndsWithPair(Preamble(r.prompt), ScanEvents(r.store, r.session, visited), LockCall, CloseCall(r.session));
      } else {
        UnchosenRunTrace(r);
        ScanHasNoTeardown(r.store, r.session, r.items, r.session);
        AbsentFromBoth(Preamble(r.prompt), ScanEvents(r.store, r.session, r.items), LockCall);
        AbsentFromBoth(Preamble(r.prompt), ScanEvents(r.store, r.session, r.items), CloseCall(r.session));
      }
    }
  }

  /** A run that stops before the scan sends neither `Lock` nor `Close`. */
  lemma NoTeardownBeforeScan(r: Replies)
    requires !ReachesScan(r)
    ensures LockCall !in Trace(r) && CloseCall(r.session) !in Trace(r)
  {
    EarlyTraceIsPrefix(r);
    PreambleHasNoTeardown(r.prompt, r.session);
    AbsentFromPrefix(Preamble(r.prompt), EarlyLength(r), LockCall);
    AbsentFromPrefix(Preamble(r.prompt), EarlyLength(r), CloseCall(r.session));
  }

  lemma PreambleHasNoTeardown(prompt: string, session: string)
    ensures LockCall !in Preamble(prompt) && CloseCall(session) !in Preamble(prompt)
  {
  }

  lemma ScanHasNoTeardown(store: ItemStore, session: string, visited: seq<string>, closed: string)
    ensures LockCall !in ScanEvents(store, session, visited)
    ensures CloseCall(closed) !in ScanEvents(store, session, visited)
  {
    ScanEventShape(store, session, visited);
  }

  /** How many requests a run that stops before the scan sends. */
  function EarlyLength(r: Replies): nat
  {
    if !r.connected then 0
    else if r.session == "" then 1
    else if r.prompt == "" then 2
    else if r.locked then 3 + |PromptEvents(r.prompt)|
    else 4 + |PromptEvents(r.prompt)|
  }

  /** A run that stops before the scan sends a prefix of the preamble. */
  lemma EarlyTraceIsPrefix(r: Replies)
    requires !ReachesScan(r)
    ensures EarlyLength(r) <= |Preamble(r.prompt)|
    ensures Trace(r) == Preamble(r.prompt)[..EarlyLength(r)]
  {
    var pe := PromptEvents(r.prompt);
    var p := Preamble(r.prompt);
    assert p == [OpenSessionCall] + ([UnlockCall] + (pe + [GetLockedCall] + [GetItemsCall]));
    if !r.connected {
    } else if r.session == "" {
      PrefixOfConcat([OpenSessionCall], [UnlockCall] + (pe + [GetLockedCall] + [GetItemsCall]));
    } else if r.prompt == "" {
      PrefixOfConcat([OpenSessionCall, UnlockCall], pe + [GetLockedCall] + [GetItemsCall]);
    } else if r.locked {
      PrefixOfConcat([OpenSessionCall] + ([UnlockCall] + (pe + [GetLockedCall])), [GetItemsCall]);
    } else {
      assert AfterItems(r) == [];
    }
  }

  /** Every secret request among `events` is for a listed item whose label passed, and
      carries the client's session. */
  predicate SecretRequestsPass(r: Replies, events: seq<Event>)
  {
    forall e :: e in events && e.MethodCall? && e.member == "GetSecret" ==>
      e == GetSecretCall(e.path, r.session) && e.path in r.items &&
      LabelMatches(r.store.labelOf(e.path))
  }

  /** A secret is requested only for a listed item whose label passed, and always
      within the session the client opened. */
  lemma SecretsRequestedOnlyForPassingLabels(r: Replies)
    ensures SecretRequestsPass(r, Trace(r))
  {
    if !ReachesScan(r) {
      NoScanRequestsNoSecret(r);
    } else if FirstChosen(r.store, r.items) < |r.items| {
      ChosenRunPasses(r);
    } else {
      UnchosenRunPasses(r);
    }
  }

  lemma ChosenRunPasses(r: Replies)
    requires ReachesScan(r) && FirstChosen(r.store, r.items) < |r.items|
    ensures SecretRequestsPass(r, Trace(r))
  {
    ChosenRunTrace(r);
    ChosenScanPasses(r, Trace(r));
  }

  lemma ChosenScanPasses(r: Replies, t: seq<Event>)
    requires ReachesScan(r) && FirstChosen(r.store, r.items) < |r.items|
    requires t == Preamble(r.prompt) +
                  ScanEvents(r.store, r.session, r.items[..FirstChosen(r.store, r.items) + 1]) +
                  [LockCall, CloseCall(r.session)]
    ensures SecretRequestsPass(r, t)
  {
    var visited := r.items[..FirstChosen(r.store, r.items) + 1];
    PrefixMembers(r.items, visited);
    FramedScanPasses(r, visited, t);
  }

  lemma UnchosenRunPasses(r: Replies)
    requires ReachesScan(r) && FirstChosen(r.store, r.items) == |r.items|
    ensures SecretRequestsPass(r, Trace(r))
  {
    UnchosenRunTrace(r);
    OpenScanPasses(r, Trace(r));
  }

  /** A scan of listed items between the preamble and the teardown. */
  lemma FramedScanPasses(r: Replies, visited: seq<string>, t: seq<Event>)
    requires forall x :: x in visited ==> x in r.items
    requires t == Preamble(r.prompt) + ScanEvents(r.store, r.session, visited) + [LockCall, CloseCall(r.session)]
    ensures SecretRequestsPass(r, t)
  {
    var pre, scan := Preamble(r.prompt), ScanEvents(r.store, r.session, visited);
    PreambleRequestsNoSecret(r);
    VisitedSecretsPass(r, visited);
    TeardownRequestsNoSecret(r);
    PassConcat(r, pre, scan);
    PassConcat(r, pre + scan, [LockCall, CloseCall(r.session)]);
  }

  /** A scan of every listed item after the preamble. */
  lemma OpenScanPasses(r: Replies, t: seq<Event>)
    requires t == Preamble(r.prompt) + ScanEvents(r.store, r.session, r.items)
    ensures SecretRequestsPass(r, t)
  {
    PreambleRequestsNoSecret(r);
    VisitedSecretsPass(r, r.items);
    PassConcat(r, Preamble(r.prompt), ScanEvents(r.store, r.session, r.items));
  }

  lemma PreambleRequestsNoSecret(r: Replies)
    ensures SecretRequestsPass(r, Preamble(r.prompt))
  {
  }

  lemma TeardownRequestsNoSecret(r: Replies)
    ensures SecretRequestsPass(r, [LockCall, CloseCall(r.session)])
  {
  }

  lemma PassConcat(r: Replies, a: seq<Event>, b: seq<Event>)
    requires SecretRequestsPass(r, a) && SecretRequestsPass(r, b)
    ensures SecretRequestsPass(r, a + b)
  {
  }

  lemma VisitedSecretsPass(r: Replies, visited: seq<string>)
    requires forall x :: x in visited ==> x in r.items
    ensures SecretRequestsPass(r, ScanEvents(r.store, r.session, visited))
  {
    ScanEventShape(r.store, r.session, visited);
  }

  lemma NoScanRequestsNoSecret(r: Replies)
    requires !ReachesScan(r)
    ensures SecretRequestsPass(r, Trace(r))
  {
    EarlyTraceIsPrefix(r);
    PreambleRequestsNoSecret(r);
    PassPrefix(r, Preamble(r.prompt), EarlyLength(r));
  }

  lemma PassPrefix(r: Replies, events: seq<Event>, n: nat)
    requires n <= |events| && SecretRequestsPass(r, events)
    ensures SecretRequestsPass(r, events[..n])
  {
    forall e | e in events[..n]
      ensures e in events
    {
    }
  }

  /** A label read: `Get(org.freedesktop.Secret.Item, Label)`. */
  predicate IsLabelRequest(e: Event)
  {
    e.MethodCall? && e.member == "Get" && e.args == [Str(ItemIface), Str("Label")]
  }

  /** The items whose label the client read, in request order. */
  function LabelRequests(events: seq<Event>): seq<string>
    decreases |events|
  {
    if events == [] then []
    else LabelRequests(events[..|events| - 1]) +
         (if IsLabelRequest(events[|events| - 1]) then [events[|events| - 1].path] else [])
  }

  lemma {:induction false} LabelRequestsAppend(a: seq<Event>, b: seq<Event>)
    ensures LabelRequests(a + b) == LabelRequests(a) + LabelRequests(b)
    decreases |b|
  {
    if b == [] {
      assert a + b == a;
    } else {
      assert (a + b)[..|a + b| - 1] == a + b[..|b| - 1];
      LabelRequestsAppend(a, b[..|b| - 1]);
    }
  }

  /** The scan reads the labels of `items` in list order, each once. */
  lemma {:induction false} ScanVisitsInOrder(store: ItemStore, session: string, items: seq<string>)
    ensures LabelRequests(ScanEvents(store, session, items)) == items
    decreases |items|
  {
    if items != [] {
      var rest := items[1..];
      ScanVisitsInOrder(store, session, rest);
      LabelRequestsAppend(ItemEvents(store, session, items[0]), ScanEvents(store, session, rest));
      ItemReadsItsLabel(store, session, items[0]);
      assert [items[0]] + rest == items;
    }
  }

  /** Visiting one item reads exactly its label. */
  lemma ItemReadsItsLabel(store: ItemStore, session: string, item: string)
    ensures LabelRequests(ItemEvents(store, session, item)) == [item]
  {
    var ev := ItemEvents(store, session, item);
    if LabelMatches(store.labelOf(item)) {
      assert ev == [GetLabelCall(item), GetSecretCall(item, session)];
      assert !IsLabelRequest(ev[1]);
      assert ev[..1] == [GetLabelCall(item)];
      assert ev[..1][..0] == [];
      assert LabelRequests(ev[..1]) == [item];
    } else {
      assert ev == [GetLabelCall(item)];
      assert ev[..0] == [];
    }
  }

  /** Items are visited in list order, and the visit stops right after the first item
      whose label passes and whose secret is not empty; a run that does not reach the
      scan reads no label. */
  lemma ItemsVisitedInOrder(r: Replies)
    ensures LabelRequests(Trace(r)) ==
              if !ReachesScan(r) then []
              else if FirstChosen(r.store, r.items) < |r.items| then r.items[..FirstChosen(r.store, r.items) + 1]
              else r.items
  {
    if ReachesScan(r) {
      ScanRunReadsVisitedLabels(r);
    } else {
      NoScanReadsNoLabel(r);
    }
  }

  lemma ScanRunReadsVisitedLabels(r: Replies)
    requires ReachesScan(r)
    ensures var k := FirstChosen(r.store, r.items);
            LabelRequests(Trace(r)) == if k < |r.items| then r.items[..k + 1] else r.items
  {
    if FirstChosen(r.store, r.items) < |r.items| {
      ChosenRunReadsLabels(r);
    } else {
      UnchosenRunReadsLabels(r);
    }
  }

  lemma ChosenRunReadsLabels(r: Replies)
    requires ReachesScan(r) && FirstChosen(r.store, r.items) < |r.items|
    ensures LabelRequests(Trace(r)) == r.items[..FirstChosen(r.store, r.items) + 1]
  {
    var visited := r.items[..FirstChosen(r.store, r.items) + 1];
    var pre, scan, tail := Preamble(r.prompt), ScanEvents(r.store, r.session, visited), [LockCall, CloseCall(r.session)];
    ChosenRunTrace(r);
    PreambleReadsNoLabel(r.prompt);
    ScanVisitsInOrder(r.store, r.session, visited);
    TeardownReadsNoLabel(r.session);
    LabelsAround(Trace(r), pre, scan, tail, visited);
  }

  lemma ChosenRunTrace(r: Replies)
    requires ReachesScan(r) && FirstChosen(r.store, r.items) < |r.items|
    ensures Trace(r) == Preamble(r.prompt) +
                        ScanEvents(r.store, r.session, r.items[..FirstChosen(r.store, r.items) + 1]) +
                        [LockCall, CloseCall(r.session)]
  {
    TraceOfScan(r);
    ScanRunStopsAtFirstChosen(r.store, r.session, r.items);
    Associate(Preamble(r.prompt),
              ScanEvents(r.store, r.session, r.items[..FirstChosen(r.store, r.items) + 1]),
              [LockCall, CloseCall(r.session)]);
  }

  lemma UnchosenRunTrace(r: Replies)
    requires ReachesScan(r) && FirstChosen(r.store, r.items) == |r.items|
    ensures Trace(r) == Preamble(r.prompt) + ScanEvents(r.store, r.session, r.items)
  {
    TraceOfScan(r);
    ScanRunStopsAtFirstChosen(r.store, r.session, r.items);
  }

  lemma TeardownReadsNoLabel(session: string)
    ensures LabelRequests([LockCall, CloseCall(session)]) == []
  {
    NoLabelRequests([LockCall, CloseCall(session)]);
  }

  /** Label reads of a scan framed by requests that read none. */
  lemma LabelsAround(t: seq<Event>, pre: seq<Event>, scan: seq<Event>, tail: seq<Event>, visited: seq<string>)
    requires t == pre + scan + tail
    requires LabelRequests(pre) == [] && LabelRequests(scan) == visited && LabelRequests(tail) == []
    ensures LabelRequests(t) == visited
  {
    LabelRequestsAppend(pre, scan);
    LabelRequestsAppend(pre + scan, tail);
  }

  lemma UnchosenRunReadsLabels(r: Replies)
    requires ReachesScan(r) && FirstChosen(r.store, r.items) == |r.items|
    ensures LabelRequests(Trace(r)) == r.items
  {
    var pre := Preamble(r.prompt);
    var scan := ScanEvents(r.store, r.session, r.items);
    UnchosenRunTrace(r);
    PreambleReadsNoLabel(r.prompt);
    ScanVisitsInOrder(r.store, r.session, r.items);
    LabelRequestsAppend(pre, scan);
  }

  lemma PreambleReadsNoLabel(prompt: string)
    ensures forall i :: 0 <= i < |Preamble(prompt)| ==> !IsLabelRequest(Preamble(prompt)[i])
    ensures LabelRequests(Preamble(prompt)) == []
  {
    var p := Preamble(prompt);
    assert forall i :: 0 <= i < |p| ==> !IsLabelRequest(p[i]);
    NoLabelRequests(p);
  }

  lemma {:induction false} NoLabelRequests(events: seq<Event>)
    requires forall i :: 0 <= i < |events| ==> !IsLabelRequest(events[i])
    ensures LabelRequests(events) == []
    decreases |events|
  {
    if events != [] {
      NoLabelRequests(events[..|events| - 1]);
    }
  }

  lemma NoScanReadsNoLabel(r: Replies)
    requires !ReachesScan(r)
    ensures LabelRequests(Trace(r)) == []
  {
    var p := Preamble(r.prompt);
    EarlyTraceIsPrefix(r);
    PreambleReadsNoLabel(r.prompt);
    PrefixReadsNoLabel(p, EarlyLength(r));
  }

  lemma PrefixReadsNoLabel(events: seq<Event>, n: nat)
    requires n <= |events| && forall i :: 0 <= i < |events| ==> !IsLabelRequest(events[i])
    ensures LabelRequests(events[..n]) == []
  {
    var t := events[..n];
    assert forall i :: 0 <= i < |t| ==> t[i] == events[i];
    NoLabelRequests(t);
  }
}
