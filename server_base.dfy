/**
 * `ServerBase`: the table of live connections, the lazily filled handler cache, dispatch
 * of a received packet to its handler, and the new-connection listeners. Reflection over
 * handler types and the handlers themselves are parameters: whether a handler type has an
 * `ExecuteAsync` method, and whether running the handler throws.
 */
module Servers {
  import opened Wrappers
  import opened Packets
  import PacketManager
  import opened Connections

  /** How `CallListener` ends. */
  datatype DispatchOutcome =
    | NoHandler        // not registered, or no handler type: logged, nothing else
    | MissingExecute   // InvalidOperationException while filling the cache: propagates
    | Handled          // the handler ran to completion
    | HandlerFailed    // the handler threw: logged and the connection closed

  /** The outcome and the handler cache after it, keyed by packet class, valued by handler class. */
  datatype Dispatch = Dispatch(outcome: DispatchOutcome, cache: map<string, string>)

  /**
   * `CallListener`'s decisions. A registered packet whose class is not cached yet has its
   * handler's `ExecuteAsync` looked up and the entry cached; the cached entry is used from
   * then on; the handler's exception is caught, any exception before the handler runs is not.
   */
  function DispatchSpec(manager: PacketManager.Manager, cache: map<string, string>, packet: NetworkPacket,
                        hasExecute: string -> bool, handlerThrows: bool): Dispatch
  {
    var info := PacketManager.TryGetPacketInfo(manager, packet);
    if info.None? || info.value.handlerType.None? then Dispatch(NoHandler, cache)
    else if info.value.packetType !in cache && !hasExecute(info.value.handlerType.value) then Dispatch(MissingExecute, cache)
    else
      var cache' := if info.value.packetType in cache then cache
                    else cache[info.value.packetType := info.value.handlerType.value];
      Dispatch(if handlerThrows then HandlerFailed else Handled, cache')
  }

  /**
   * Memoisation: a dispatch never changes or removes a cached entry, adds at most the
   * entry of the packet's own class, and adds it only on the first dispatch that finds
   * the handler's `ExecuteAsync`.
   */
  lemma DispatchKeepsCache(manager: PacketManager.Manager, cache: map<string, string>, packet: NetworkPacket,
                           hasExecute: string -> bool, handlerThrows: bool)
    ensures var d := DispatchSpec(manager, cache, packet, hasExecute, handlerThrows);
      && (forall k :: k in cache ==> k in d.cache && d.cache[k] == cache[k])
      && (forall k :: k in d.cache && k !in cache ==>
            var info := PacketManager.TryGetPacketInfo(manager, packet);
            info.Some? && info.value.packetType == k && info.value.handlerType == Some(d.cache[k]) && hasExecute(d.cache[k]))
  {
  }

  /** Every cached handler is the registered handler of its packet class. */
  ghost predicate CacheAgrees(manager: PacketManager.Manager, cache: map<string, string>) {
    forall k :: k in cache ==> exists id :: id in manager.infos && manager.infos[id] == PacketManager.PacketInfo(k, Some(cache[k]))
  }

  /** Dispatch keeps the cache in agreement with the registry. */
  lemma DispatchPreservesAgreement(manager: PacketManager.Manager, cache: map<string, string>, packet: NetworkPacket,
                                   hasExecute: string -> bool, handlerThrows: bool)
    requires CacheAgrees(manager, cache)
    ensures CacheAgrees(manager, DispatchSpec(manager, cache, packet, hasExecute, handlerThrows).cache)
  {
    var d := DispatchSpec(manager, cache, packet, hasExecute, handlerThrows);
    forall k | k in d.cache
      ensures exists id :: id in manager.infos && manager.infos[id] == PacketManager.PacketInfo(k, Some(d.cache[k]))
    {
      if k !in cache {
        var id := packet.header.packetType;
        assert id in manager.infos && manager.infos[id] == PacketManager.PacketInfo(k, Some(d.cache[k]));
      }
    }
  }

  /**
   * The outcome: nothing is run for an unregistered packet or one without a handler; the
   * connection is to be closed exactly when a handler was found, its method resolved and
   * the handler threw.
   */
  lemma DispatchOutcomes(manager: PacketManager.Manager, cache: map<string, string>, packet: NetworkPacket,
                         hasExecute: string -> bool, handlerThrows: bool)
    ensures var d := DispatchSpec(manager, cache, packet, hasExecute, handlerThrows);
      var info := PacketManager.TryGetPacketInfo(manager, packet);
      && (d.outcome == NoHandler <==> info.None? || info.value.handlerType.None?)
      && (d.outcome == NoHandler ==> d.cache == cache)
      && (d.outcome == MissingExecute ==> d.cache == cache)
      && (d.outcome == HandlerFailed <==>
            info.Some? && info.value.handlerType.Some? && handlerThrows
            && (info.value.packetType in cache || hasExecute(info.value.handlerType.value)))
  {
  }

  /** One call of a listener, on the connection with the given id. */
  datatype ListenerCall = ListenerCall(listener: nat, connection: nat)

  /** The calls `CallConnectionListener` makes: every listener, in registration order. */
  function FanOut(listeners: seq<nat>, connection: nat): (calls: seq<ListenerCall>)
    ensures |calls| == |listeners|
    ensures forall i :: 0 <= i < |calls| ==> calls[i] == ListenerCall(listeners[i], connection)
  {
    if listeners == [] then [] else [ListenerCall(listeners[0], connection)] + FanOut(listeners[1..], connection)
  }

  class Server {
    const manager: PacketManager.Manager
    /** `Connections`, by connection id. */
    var connections: map<nat, Connection>
    /** `HandlerCache`, by packet class; the value names the handler class its entry was built from. */
    var handlerCache: map<string, string>
    /** `_connectionListeners`, in registration order. */
    var listeners: seq<nat>
    /** The calls made to listeners so far. */
    var listenerCalls: seq<ListenerCall>

    constructor (manager: PacketManager.Manager)
      ensures this.manager == manager && connections == map[] && handlerCache == map[]
      ensures listeners == [] && listenerCalls == []
    {
      this.manager := manager;
      connections := map[];
      handlerCache := map[];
      listeners := [];
      listenerCalls := [];
    }

    /** The table update of `OnClientAccepted`: `TryAdd` under the connection's id keeps an existing entry. */
    method Accept(connection: Connection)
      modifies this
      ensures connection.id in old(connections) ==> connections == old(connections)
      ensures connection.id !in old(connections) ==> connections == old(connections)[connection.id := connection]
      ensures handlerCache == old(handlerCache) && listeners == old(listeners) && listenerCalls == old(listenerCalls)
    {
      if connection.id !in connections {
        connections := connections[connection.id := connection];
      }
    }

    /** `RemoveConnection`: only that id leaves the table. */
    method RemoveConnection(connection: Connection)
      modifies this
      ensures connections == old(connections) - {connection.id}
      ensures handlerCache == old(handlerCache) && listeners == old(listeners) && listenerCalls == old(listenerCalls)
    {
      connections := connections - {connection.id};
    }

    /** `RegisterNewConnectionListener`. */
    method RegisterNewConnectionListener(listener: nat)
      modifies this
      ensures listeners == old(listeners) + [listener]
      ensures connections == old(connections) && handlerCache == old(handlerCache) && listenerCalls == old(listenerCalls)
    {
      listeners := listeners + [listener];
    }

    /** `ForAllConnections`: the callback runs once for each connection in the table, in some order. */
    method ForAllConnections() returns (visited: seq<nat>)
      ensures |visited| == |connections.Keys|
      ensures forall id :: id in visited <==> id in connections
      ensures forall i, j :: 0 <= i < j < |visited| ==> visited[i] != visited[j]
    {
      visited := [];
      var remaining := connections.Keys;
      while remaining != {}
        invariant remaining <= connections.Keys
        invariant forall id :: id in visited <==> id in connections && id !in remaining
        invariant forall i, j :: 0 <= i < j < |visited| ==> visited[i] != visited[j]
        invariant |visited| + |remaining| == |connections.Keys|
        decreases |remaining|
      {
        var id :| id in remaining;
        visited := visited + [id];
        remaining := remaining - {id};
      }
    }

    /** `CallConnectionListener`: every listener in order; their results are ignored and the connection is untouched. */
    method CallConnectionListener(connection: Connection)
      modifies this
      ensures listenerCalls == old(listenerCalls) + FanOut(listeners, connection.id)
      ensures connections == old(connections) && handlerCache == old(handlerCache) && listeners == old(listeners)
    {
      var ls, calls := listeners, [];
      for i := 0 to |ls|
        invariant ls == listeners && listenerCalls == old(listenerCalls) + calls
        invariant connections == old(connections) && handlerCache == old(handlerCache)
        invariant |calls| == i && forall j :: 0 <= j < i ==> calls[j] == ListenerCall(ls[j], connection.id)
      {
        calls := calls + [ListenerCall(ls[i], connection.id)];
        listenerCalls := listenerCalls + [ListenerCall(ls[i], connection.id)];
      }
      assert calls == FanOut(ls, connection.id);
    }

    /**
     * `CallListener`: decides by `DispatchSpec`, fills the cache, and on a handler's
     * exception calls `connection.Close()`, whose `expected` defaults to true.
     */
    method CallListener(connection: Connection, packet: NetworkPacket, hasExecute: string -> bool, handlerThrows: bool)
      returns (outcome: DispatchOutcome)
      modifies this, connection
      ensures var d := DispatchSpec(manager, old(handlerCache), packet, hasExecute, handlerThrows);
        outcome == d.outcome && handlerCache == d.cache
      ensures connections == old(connections) && listeners == old(listeners) && listenerCalls == old(listenerCalls)
      ensures outcome == HandlerFailed ==>
        && connection.closed
        && connection.onClose == old(connection.onClose) + (if old(connection.closed) then [] else [true])
        && connection.client == (if old(connection.closed) then old(connection.client) else Shut(old(connection.client)))
        && connection.tokenSource == (if old(connection.closed) then old(connection.tokenSource) else Cancel(old(connection.tokenSource)))
      ensures outcome != HandlerFailed ==>
        connection.closed == old(connection.closed) && connection.onClose == old(connection.onClose)
        && connection.client == old(connection.client) && connection.tokenSource == old(connection.tokenSource)
      ensures connection.hasStream == old(connection.hasStream) && connection.dropped == old(connection.dropped)
    {
      var info := PacketManager.TryGetPacketInfo(manager, packet);
      if info.None? || info.value.handlerType.None? {
        return NoHandler;   // logged
      }
      var packetType, handlerType := info.value.packetType, info.value.handlerType.value;
      if packetType !in handlerCache {
        if !hasExecute(handlerType) {
          return MissingExecute;
        }
        handlerCache := handlerCache[packetType := handlerType];
      }
      if handlerThrows {
        connection.Close(true);
        return HandlerFailed;
      }
      return Handled;
    }
  }

  /** Applies `DispatchSpec` to each packet in turn, threading the cache. */
  function DispatchAll(manager: PacketManager.Manager, cache: map<string, string>, packets: seq<NetworkPacket>,
                       hasExecute: string -> bool, throws: seq<bool>): map<string, string>
    requires |throws| == |packets|
    decreases |packets|
  {
    if packets == [] then cache
    else DispatchAll(manager, DispatchSpec(manager, cache, packets[0], hasExecute, throws[0]).cache, packets[1..], hasExecute, throws[1..])
  }

  /** However many packets are dispatched, an entry once cached keeps its handler, and the cache keeps agreeing with the registry. */
  lemma {:induction false} DispatchAllKeepsCache(manager: PacketManager.Manager, cache: map<string, string>, packets: seq<NetworkPacket>,
                                                 hasExecute: string -> bool, throws: seq<bool>)
    requires |throws| == |packets| && CacheAgrees(manager, cache)
    ensures var c := DispatchAll(manager, cache, packets, hasExecute, throws);
      && (forall k :: k in cache ==> k in c && c[k] == cache[k])
      && CacheAgrees(manager, c)
    decreases |packets|
  {
    if packets != [] {
      var next := DispatchSpec(manager, cache, packets[0], hasExecute, throws[0]).cache;
      DispatchKeepsCache(manager, cache, packets[0], hasExecute, throws[0]);
      DispatchPreservesAgreement(manager, cache, packets[0], hasExecute, throws[0]);
      DispatchAllKeepsCache(manager, next, packets[1..], hasExecute, throws[1..]);
    }
  }
}
