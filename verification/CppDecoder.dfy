/** The C++ receiver: the same slot table, reached through accessors that each run the clock hook. */
module CppDecoder {
  import opened Words
  import opened Common
  import opened Rx
  import opened Reassembly
  import opened SlotTable

  class Coordinator {
    const slots: array<Slot>
    const senderMeta: array<SenderMeta>

    ghost predicate Valid() {
      slots.Length == SLOT_COUNT && senderMeta.Length == SENDER_COUNT
    }

    ghost function Contents(): Table
      reads slots, senderMeta
    {
      Table(slots[..], senderMeta[..])
    }

    constructor ()
      ensures Valid() && fresh(slots) && fresh(senderMeta)
      ensures Contents() == FreshTable()
    {
      slots := new Slot[SLOT_COUNT](_ => FRESH_SLOT);
      senderMeta := new SenderMeta[SENDER_COUNT](_ => SenderMeta.SenderMeta(0, 0));
      new;
      assert slots[..] == FreshTable().slots;
      assert senderMeta[..] == FreshTable().metas;
    }

    method AdvanceGeneration(senderId: u8, packageId: u8)
      requires Valid() && senderId < SENDER_COUNT
      modifies senderMeta
      ensures senderMeta[..] == old(senderMeta[..])[senderId := GcHook(old(senderMeta[senderId]), packageId)]
    {
      if packageId + PACKAGE_ID_MAX / 2 < senderMeta[senderId].pkg {
        senderMeta[senderId] := senderMeta[senderId].(gen := U8(senderMeta[senderId].gen + 1));
      }
      senderMeta[senderId] := senderMeta[senderId].(pkg := packageId);
    }

    method SlotAt(coord: Coordinate) returns (i: nat)
      requires Valid() && coord.senderId < SENDER_COUNT
      modifies slots
      ensures i == SlotIndex(coord.senderId, coord.packageId)
      ensures slots[..] == old(slots[..])[i := GcClockHook(old(slots[i]), senderMeta[coord.senderId])]
    {
      i := SlotIndex(coord.senderId, coord.packageId);
      var meta := senderMeta[coord.senderId];
      if slots[i].state.receivedCount > 0 && slots[i].gen != meta.gen {
        slots[i] := slots[i].(state := ZERO_STATE);
      }
      slots[i] := slots[i].(gen := meta.gen);
    }

    method GetState(coord: Coordinate) returns (state: State)
      requires Valid() && coord.senderId < SENDER_COUNT
      modifies slots
      ensures var i := SlotIndex(coord.senderId, coord.packageId);
              slots[..] == old(slots[..])[i := GcClockHook(old(slots[i]), senderMeta[coord.senderId])] &&
              state == slots[i].state
    {
      var i := SlotAt(coord);
      state := slots[i].state;
    }

    method SetState(coord: Coordinate, state: State)
      requires Valid() && coord.senderId < SENDER_COUNT
      modifies slots
      ensures var i := SlotIndex(coord.senderId, coord.packageId);
              slots[..] == old(slots[..])[i := GcClockHook(old(slots[i]), senderMeta[coord.senderId]).(state := state)]
    {
      var i := SlotAt(coord);
      slots[i] := slots[i].(state := state);
    }

    method PutPayload(coord: Coordinate, payload: seq<byte>)
      requires Valid() && coord.senderId < SENDER_COUNT
      modifies slots
      ensures var i := SlotIndex(coord.senderId, coord.packageId);
              slots[..] == old(slots[..])[i :=
                if payload == [] then old(slots[i])
                else
                  var slot := GcClockHook(old(slots[i]), senderMeta[coord.senderId]);
                  slot.(payload := Store(Cpp, slot.payload, coord.offset, payload))]
    {
      if payload == [] { return; }
      var i := SlotAt(coord);
      slots[i] := slots[i].(payload := Resize(slots[i].payload, coord.offset + |payload|));
      slots[i] := slots[i].(payload := Overwrite(slots[i].payload, coord.offset, payload));
    }

    method GetPayload(coord: Coordinate) returns (view: seq<byte>)
      requires Valid() && coord.senderId < SENDER_COUNT
      requires coord.offset <= |slots[SlotIndex(coord.senderId, coord.packageId)].payload|
      modifies slots
      ensures var i := SlotIndex(coord.senderId, coord.packageId);
              slots[..] == old(slots[..])[i := GcClockHook(old(slots[i]), senderMeta[coord.senderId])] &&
              view == slots[i].payload[coord.offset..]
    {
      var i := SlotAt(coord);
      view := slots[i].payload[coord.offset..];
    }
  }

  class Decoder {
    const config: Config
    const coordinator: Coordinator

    ghost predicate Valid() {
      coordinator.Valid() && MaxPayload(config) > 0
    }

    ghost function Contents(): Table
      reads coordinator.slots, coordinator.senderMeta
    {
      coordinator.Contents()
    }

    constructor (tu: u16)
      requires tu != HEADER_SIZE
      ensures Valid() && fresh(coordinator.slots) && fresh(coordinator.senderMeta)
      ensures config == Config.Config(tu) && Contents() == FreshTable()
    {
      config := Config.Config(tu);
      coordinator := new Coordinator();
    }

    /** The part of `Push` after the generation hook. */
    method Accept(coord: Coordinate, header: HeaderMeta, block: seq<byte>) returns (delivered: Option<seq<byte>>)
      requires Valid() && |block| >= HEADER_SIZE
      requires coord.senderId < SENDER_COUNT && coord.offset == SliceIdxToOffset(header.sliceSerial, MaxPayload(config))
      requires var i := SlotIndex(coord.senderId, coord.packageId);
               Receive(Cpp, GcClockHook(coordinator.slots[i], coordinator.senderMeta[coord.senderId]),
                 MaxPayload(config), header, block).1 !in {Hangs, Overrun}
      modifies coordinator.slots
      ensures var i := SlotIndex(coord.senderId, coord.packageId);
              var found := GcClockHook(old(coordinator.slots[i]), coordinator.senderMeta[coord.senderId]);
              var (slot, outcome) := Receive(Cpp, found, MaxPayload(config), header, block);
              coordinator.slots[..] == old(coordinator.slots[..])[i := slot] &&
              outcome == if delivered.Some? then Delivered(delivered.value) else Quiet
    {
      hide Step, Resize, Overwrite, SliceIdxToOffset, ReadHeader;
      var maxPayload: u16 := MaxPayload(config);
      var payloadSize: u16 := PayloadSize(Cpp, header, block);
      var payload := block[HEADER_SIZE..][..payloadSize];
      assert payload == FramePayload(Cpp, header, block);
      var state := coordinator.GetState(coord);
      var inst := CalcSliceStep(state, header.sliceSerial, payloadSize, maxPayload, header.eop != 0);
      delivered := None;
      if inst.e != Duplicate {
        if payloadSize > 0 {
          coordinator.PutPayload(coord, payload);
        }
        coordinator.SetState(coord, inst.next);
        if inst.e == Complete {
          var normalized := coord.(offset := 0);
          var view := coordinator.GetPayload(normalized);
          assert |view| >= inst.next.termination;
          delivered := Some(view[..inst.next.termination]);
          coordinator.SetState(normalized, ZERO_STATE);
        }
      }
    }

    /** One block in, at most one package out. A block without a header is ignored. The scan must end and
        the known end of a completed package must have been stored, as for every honest frame. */
    method Push(block: seq<byte>) returns (delivered: Option<seq<byte>>)
      requires Valid()
      requires |block| >= HEADER_SIZE ==> TableStep(Cpp, Contents(), config, block).1 !in {Hangs, Overrun}
      modifies coordinator.slots, coordinator.senderMeta
      ensures |block| < HEADER_SIZE ==> Contents() == old(Contents()) && delivered == None
      ensures |block| >= HEADER_SIZE ==>
                Contents() == TableStep(Cpp, old(Contents()), config, block).0 &&
                TableStep(Cpp, old(Contents()), config, block).1 ==
                  if delivered.Some? then Delivered(delivered.value) else Quiet
      ensures |block| >= HEADER_SIZE && Repeated(old(Contents()), block) ==>
                Contents() == Clocked(old(Contents()), block) && delivered == None
    {
      hide ReadHeader, Receive, Repeated, Clocked;
      if |block| < HEADER_SIZE { return None; }
      if Repeated(Contents(), block) {
        RepeatedOnlyClocks(Cpp, Contents(), config, block);
      }
      HeaderFits(block);
      var header := ReadHeader(block);
      var coord := HeaderToCoordinate(config, header);
      coordinator.AdvanceGeneration(coord.senderId, coord.packageId);
      delivered := Accept(coord, header, block);
    }
  }
}
