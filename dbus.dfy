/// The session-bus connection both credential-store clients open (`DBusCon`). Its
/// transport is not part of this model: the connection records every request in
/// `trace`, and the replies the clients read back come from a scripted oracle
/// passed to each client.
module DBus {

  /** A typed D-Bus argument as the clients build them. */
  datatype Arg =
    | Str(s: string)
    | ObjectPath(path: string)
    | Int32(i: int)
    | Int64(l: int)
    | Boolean(b: bool)
    | Array(elems: seq<Arg>)
    | Variant(inner: Arg)

  /** One request on the bus. */
  datatype Event =
    | MethodCall(destination: string, path: string, iface: string, member: string, args: seq<Arg>)
      // `callMethod(destination, path, interface, method, args)`
    | AddMatch(rule: string)
      // `matchSignal(rule)`
    | WaitSignal(polls: nat, intervalMs: nat, iface: string, member: string)
      // `waitSignal(polls, interval, interface, member)`

  /** `DBusCon`, reduced to the record of what was sent on it. */
  class Connection {
    var trace: seq<Event>

    constructor ()
      ensures trace == []
    {
      trace := [];
    }

    method CallMethod(destination: string, path: string, iface: string, member: string, args: seq<Arg>)
      modifies this
      ensures trace == old(trace) + [MethodCall(destination, path, iface, member, args)]
    {
      trace := trace + [MethodCall(destination, path, iface, member, args)];
    }

    /** Registers a match rule; `accepted` is the bus's answer. */
    method MatchSignal(rule: string, accepted: bool) returns (ok: bool)
      modifies this
      ensures trace == old(trace) + [AddMatch(rule)] && ok == accepted
    {
      trace := trace + [AddMatch(rule)];
      ok := accepted;
    }

    /** Waits for a signal; whether it arrived in time is the bus's answer `arrived`. */
    method Wait(polls: nat, intervalMs: nat, iface: string, member: string, arrived: bool)
      returns (ok: bool)
      modifies this
      ensures trace == old(trace) + [WaitSignal(polls, intervalMs, iface, member)] && ok == arrived
    {
      trace := trace + [WaitSignal(polls, intervalMs, iface, member)];
      ok := arrived;
    }
  }
}
