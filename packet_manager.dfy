/**
 * `PacketManager`: the registry from packet type id to the packet class and the handler
 * class chosen for it, built once by its constructor and only read afterwards. The
 * reflection it runs on is given as explicit declarations.
 */
module PacketManager {
  import opened Wrappers
  import opened Packets
  import opened PacketReader

  /**
   * A candidate handler class as reflection shows it: abstract or not, interface or not,
   * and the first generic argument of each generic interface it implements.
   */
  datatype HandlerDecl = HandlerDecl(name: string, isAbstract: bool, isInterface: bool, handles: seq<string>)

  /** What the registry keeps per type id; the handler is nullable in the source. */
  datatype PacketInfo = PacketInfo(packetType: string, handlerType: Option<string>)

  /** `Dictionary.Add` on an id already present. */
  datatype RegistryError = DuplicateId(id: u16)

  /** The registry once built. */
  datatype Manager = Manager(infos: map<u16, PacketInfo>)

  /** The `LastOrDefault` filter: a concrete class with a generic interface over `packetType`. */
  predicate Matches(h: HandlerDecl, packetType: string) {
    !h.isAbstract && !h.isInterface && packetType in h.handles
  }

  /** `LastOrDefault`: the last matching candidate, or null when none matches. */
  function LastMatch(handlers: seq<HandlerDecl>, packetType: string): Option<string>
    decreases |handlers|
  {
    if handlers == [] then None
    else if Matches(handlers[|handlers| - 1], packetType) then Some(handlers[|handlers| - 1].name)
    else LastMatch(handlers[..|handlers| - 1], packetType)
  }

  /**
   * The search finds a handler exactly when some candidate matches, and then the one it
   * finds is a matching candidate after which no other matches: the last one wins.
   */
  lemma {:induction false} LastMatchWins(handlers: seq<HandlerDecl>, packetType: string)
    ensures LastMatch(handlers, packetType).None? <==> forall i :: 0 <= i < |handlers| ==> !Matches(handlers[i], packetType)
    ensures LastMatch(handlers, packetType).Some? ==>
      exists i :: 0 <= i < |handlers| && Matches(handlers[i], packetType) && handlers[i].name == LastMatch(handlers, packetType).value
        && forall j :: i < j < |handlers| ==> !Matches(handlers[j], packetType)
    decreases |handlers|
  {
    if handlers != [] && !Matches(handlers[|handlers| - 1], packetType) {
      var init := handlers[..|handlers| - 1];
      LastMatchWins(init, packetType);
      assert forall i :: 0 <= i < |init| ==> init[i] == handlers[i];
      if LastMatch(init, packetType).Some? {
        var i :| 0 <= i < |init| && Matches(init[i], packetType) && init[i].name == LastMatch(init, packetType).value
          && forall j :: i < j < |init| ==> !Matches(init[j], packetType);
        assert handlers[i] == init[i];
      }
    }
  }

  /** `packetHandlerTypes?.LastOrDefault(...)`: a null candidate array finds no handler. */
  function HandlerFor(handlers: Option<seq<HandlerDecl>>, packetType: string): Option<string> {
    if handlers.None? then None else LastMatch(handlers.value, packetType)
  }

  /** A packet class the constructor registers: it has a type field and a handler. */
  predicate Registrable(d: PacketTypeDecl, handlers: Option<seq<HandlerDecl>>) {
    d.typeField.Some? && HandlerFor(handlers, d.name).Some?
  }

  /** The registry the constructor's loop builds, or the exception it stops with. */
  function Registry(decls: seq<PacketTypeDecl>, handlers: Option<seq<HandlerDecl>>): Result<map<u16, PacketInfo>, RegistryError>
    decreases |decls|
  {
    if decls == [] then Success(map[])
    else
      var d := decls[|decls| - 1];
      match Registry(decls[..|decls| - 1], handlers)
      case Failure(e) => Failure(e)
      case Success(m) =>
        if !Registrable(d, handlers) then Success(m)
        else if d.typeField.value in m then Failure(DuplicateId(d.typeField.value))
        else Success(m[d.typeField.value := PacketInfo(d.name, HandlerFor(handlers, d.name))])
  }

  /** Once the constructor has thrown on a prefix of the classes, the remaining ones change nothing. */
  lemma {:induction false} RegistryFailureStays(decls: seq<PacketTypeDecl>, handlers: Option<seq<HandlerDecl>>, i: nat)
    requires i <= |decls| && Registry(decls[..i], handlers).Failure?
    ensures Registry(decls, handlers) == Registry(decls[..i], handlers)
    decreases |decls| - i
  {
    if i < |decls| {
      assert decls[..i + 1][..i] == decls[..i];
      RegistryFailureStays(decls, handlers, i + 1);
    } else {
      assert decls[..i] == decls;
    }
  }

  /** The constructor: one pass over the packet classes, skipping, choosing a handler, adding. */
  method NewManager(decls: seq<PacketTypeDecl>, handlers: Option<seq<HandlerDecl>>) returns (r: Result<Manager, RegistryError>)
    ensures Registry(decls, handlers).Failure? ==> r == Failure(Registry(decls, handlers).error)
    ensures Registry(decls, handlers).Success? ==> r == Success(Manager(Registry(decls, handlers).value))
  {
    var infos: map<u16, PacketInfo> := map[];
    for i := 0 to |decls|
      invariant Registry(decls[..i], handlers) == Success(infos)
    {
      assert decls[..i + 1][..i] == decls[..i];
      var d := decls[i];
      if d.typeField.None? {
        continue;   // logged: no NetworkPacketType field
      }
      var handlerType := HandlerFor(handlers, d.name);
      if handlerType.None? {
        continue;   // logged: no handler
      }
      if d.typeField.value in infos {
        RegistryFailureStays(decls, handlers, i + 1);
        return Failure(DuplicateId(d.typeField.value));
      }
      infos := infos[d.typeField.value := PacketInfo(d.name, handlerType)];
    }
    assert decls[..|decls|] == decls;
    return Success(Manager(infos));
  }

  /** A built registry holds exactly the ids of the registrable classes. */
  lemma {:induction false} RegistryKeys(decls: seq<PacketTypeDecl>, handlers: Option<seq<HandlerDecl>>)
    requires Registry(decls, handlers).Success?
    ensures forall id :: id in Registry(decls, handlers).value <==>
      exists i :: 0 <= i < |decls| && Registrable(decls[i], handlers) && decls[i].typeField == Some(id)
    decreases |decls|
  {
    if decls != [] {
      var n := |decls| - 1;
      var init := decls[..n];
      RegistryKeys(init, handlers);
      var d := decls[n];
      forall id | id in Registry(decls, handlers).value
        ensures exists i :: 0 <= i < |decls| && Registrable(decls[i], handlers) && decls[i].typeField == Some(id)
      {
        if !(Registrable(d, handlers) && d.typeField == Some(id)) {
          var i :| 0 <= i < n && Registrable(init[i], handlers) && init[i].typeField == Some(id);
          assert decls[i] == init[i];
        }
      }
      forall id | exists i :: 0 <= i < |decls| && Registrable(decls[i], handlers) && decls[i].typeField == Some(id)
        ensures id in Registry(decls, handlers).value
      {
        var i :| 0 <= i < |decls| && Registrable(decls[i], handlers) && decls[i].typeField == Some(id);
        if i < n {
          assert init[i] == decls[i];
        }
      }
    }
  }

  /**
   * Each registrable class is stored under its id with its own name and the last matching
   * handler, and every stored entry has a handler.
   */
  lemma {:induction false} RegistryValues(decls: seq<PacketTypeDecl>, handlers: Option<seq<HandlerDecl>>)
    requires Registry(decls, handlers).Success?
    ensures forall i :: 0 <= i < |decls| && Registrable(decls[i], handlers) ==>
      && decls[i].typeField.value in Registry(decls, handlers).value
      && Registry(decls, handlers).value[decls[i].typeField.value] == PacketInfo(decls[i].name, HandlerFor(handlers, decls[i].name))
    ensures forall id :: id in Registry(decls, handlers).value ==> Registry(decls, handlers).value[id].handlerType.Some?
    decreases |decls|
  {
    if decls != [] {
      var n := |decls| - 1;
      var init := decls[..n];
      RegistryValues(init, handlers);
      var m := Registry(init, handlers).value;
      forall i | 0 <= i < n && Registrable(decls[i], handlers)
        ensures && decls[i].typeField.value in Registry(decls, handlers).value
                && Registry(decls, handlers).value[decls[i].typeField.value] == PacketInfo(decls[i].name, HandlerFor(handlers, decls[i].name))
      {
        assert init[i] == decls[i];
        assert decls[i].typeField.value in m;
      }
    }
  }

  /** No two registrable classes share an id. */
  ghost predicate DistinctRegistrable(decls: seq<PacketTypeDecl>, handlers: Option<seq<HandlerDecl>>) {
    forall i, j :: 0 <= i < j < |decls| && Registrable(decls[i], handlers) && Registrable(decls[j], handlers) ==>
      decls[i].typeField != decls[j].typeField
  }

  /** The constructor throws exactly when two registrable classes share an id; skipped classes never clash. */
  lemma {:induction false} RegistrySucceeds(decls: seq<PacketTypeDecl>, handlers: Option<seq<HandlerDecl>>)
    ensures Registry(decls, handlers).Success? <==> DistinctRegistrable(decls, handlers)
    decreases |decls|
  {
    if decls != [] {
      var n := |decls| - 1;
      var init := decls[..n];
      var d := decls[n];
      RegistrySucceeds(init, handlers);
      assert forall i :: 0 <= i < n ==> init[i] == decls[i];
      if Registry(init, handlers).Success? {
        RegistryKeys(init, handlers);
        if Registrable(d, handlers) && d.typeField.value in Registry(init, handlers).value {
          var i :| 0 <= i < n && Registrable(init[i], handlers) && init[i].typeField == d.typeField;
          assert decls[i].typeField == decls[n].typeField;
        }
      } else {
        assert !DistinctRegistrable(init, handlers);
      }
    }
  }

  /** `TryGetPacketInfo`: the stored info for the header's type id, if it is registered. */
  function TryGetPacketInfo(manager: Manager, packet: NetworkPacket): (r: Option<PacketInfo>)
    ensures r.Some? <==> packet.header.packetType in manager.infos
    ensures r.Some? ==> r.value == manager.infos[packet.header.packetType]
  {
    if packet.header.packetType in manager.infos then Some(manager.infos[packet.header.packetType]) else None
  }

  /**
   * On a registry built from the declarations, a lookup finds a packet exactly when a
   * registrable class declares its id, and then yields that class with a non-null handler.
   */
  lemma LookupOnBuiltRegistry(decls: seq<PacketTypeDecl>, handlers: Option<seq<HandlerDecl>>, packet: NetworkPacket)
    requires Registry(decls, handlers).Success?
    ensures var r := TryGetPacketInfo(Manager(Registry(decls, handlers).value), packet);
      && (r.Some? <==> exists i :: 0 <= i < |decls| && Registrable(decls[i], handlers) && decls[i].typeField == Some(packet.header.packetType))
      && (r.Some? ==> r.value.handlerType.Some?)
      && forall i :: 0 <= i < |decls| && Registrable(decls[i], handlers) && decls[i].typeField == Some(packet.header.packetType) ==>
           r == Some(PacketInfo(decls[i].name, HandlerFor(handlers, decls[i].name)))
  {
    RegistryKeys(decls, handlers);
    RegistryValues(decls, handlers);
  }

  // ---------------------------------------------------------------- the host's registration

  /** The name of each packet class, as reflection reports it. */
  function ClassName(c: PacketClass): string {
    match c
    case GenerateDiscountsRequestPacket => "GenerateDiscountsRequestPacket"
    case GenerateDiscountResponsePacket => "GenerateDiscountResponsePacket"
    case UseDiscountRequestPacket => "UseDiscountRequestPacket"
    case UseDiscountResponsePacket => "UseDiscountResponsePacket"
  }

  /** The classes the host's attribute scan hands to the reader and to the manager, with their type fields. */
  function ScannedDecls(classes: seq<PacketClass>): (ds: seq<PacketTypeDecl>)
    ensures |ds| == |AttributeScan(classes)|
    ensures forall i :: 0 <= i < |ds| ==>
      ds[i] == PacketTypeDecl(ClassName(AttributeScan(classes)[i]), Some(PacketTypeField(AttributeScan(classes)[i])))
  {
    var scan := AttributeScan(classes);
    seq(|scan|, i requires 0 <= i < |scan| => PacketTypeDecl(ClassName(scan[i]), Some(PacketTypeField(scan[i]))))
  }

  /**
   * What the host builds from its scan knows only the two request types: the response
   * types 2 and 4 are neither readable nor dispatchable on the server.
   */
  lemma ScannedTablesSkipResponses(classes: seq<PacketClass>, handlers: Option<seq<HandlerDecl>>)
    ensures Registry(ScannedDecls(classes), handlers).Success? ==>
      forall id :: id in Registry(ScannedDecls(classes), handlers).value ==> id == GenerateDiscountsRequest || id == UseDiscountRequest
    ensures ReaderTable(ScannedDecls(classes)).Success? ==>
      forall id :: id in ReaderTable(ScannedDecls(classes)).value ==> id == GenerateDiscountsRequest || id == UseDiscountRequest
  {
    var ds := ScannedDecls(classes);
    var scan := AttributeScan(classes);
    ScanSkipsResponses(classes);
    assert forall i :: 0 <= i < |ds| ==> ds[i].typeField.value in {GenerateDiscountsRequest, UseDiscountRequest} by {
      forall i | 0 <= i < |ds|
        ensures ds[i].typeField.value in {GenerateDiscountsRequest, UseDiscountRequest}
      {
        assert scan[i] in scan;
      }
    }
    if Registry(ds, handlers).Success? {
      RegistryKeys(ds, handlers);
    }
    if ReaderTable(ds).Success? {
      ReaderTableKeys(ds);
    }
  }
}
