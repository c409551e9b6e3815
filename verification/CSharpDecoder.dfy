/** The C# receiver: a table of slots updated in place, and the decoder that drives it. */
module CSharpDecoder {
  import opened Words
  import opened Common
  import opened Rx
  import opened Reassembly
  import opened SlotTable

  class RxCoordinator {
    const slots: array<Slot>
    const senderMetas: array<SenderMeta>

    ghost const Repr: set<object>

    ghost predicate Valid()
      reads this, slots
    {
      && Repr == {slots, senderMetas}
      && slots.Length == SLOT_COUNT
      && senderMetas.Length == SENDER_COUNT
      && (forall i :: 0 <= i < SLOT_COUNT ==> WithinPayload(slots[i]))
    }

    ghost function Contents(): (t: Table)
      reads slots, senderMetas
    {
      Table(slots[..], senderMetas[..])
    }

    constructor ()
      ensures Valid() && fresh(Repr)
      ensures Contents() == FreshTable()
    {
      slots := new Slot[SLOT_COUNT](_ => FRESH_SLOT);
      senderMetas := new SenderMeta[SENDER_COUNT](_ => SenderMeta.SenderMeta(0, 0));
      Repr := {slots, senderMetas};
      new;
      assert slots[..] == FreshTable().slots;
      assert senderMetas[..] == FreshTable().metas;
    }

    /** Advances the sender's generation when its package id has wrapped. */
    method AdvanceGeneration(senderId: u8, packageId: u8)
      requires Valid() && senderId < SENDER_COUNT
      modifies senderMetas
      ensures Contents() ==
              old(Contents()).(metas :=
                old(Contents()).metas[senderId := GcHook(old(senderMetas[senderId]), packageId)])
    {
      if packageId + PACKAGE_ID_MAX / 2 < senderMetas[senderId].pkg {
        senderMetas[senderId] := senderMetas[senderId].(gen := U8(senderMetas[senderId].gen + 1));
      }
      senderMetas[senderId] := senderMetas[senderId].(pkg := packageId);
    }

    /** The indexer: the slot of a coordinate, reset first if its generation is over. */
    method SlotAt(coord: Coordinate) returns (i: nat)
      requires Valid() && coord.senderId < SENDER_COUNT
      modifies slots
      ensures Valid()
      ensures i == SlotIndex(coord.senderId, coord.packageId)
      ensures Contents() == old(Contents()).(slots :=
                old(Contents()).slots[i := GcClockHook(old(slots[i]), old(senderMetas[coord.senderId]))])
    {
      i := SlotIndex(coord.senderId, coord.packageId);
      var meta := senderMetas[coord.senderId];
      if slots[i].state.receivedCount > 0 && slots[i].gen != meta.gen {
        slots[i] := slots[i].(state := ZERO_STATE);
      }
      slots[i] := slots[i].(gen := meta.gen);
    }
  }

  class RxDecoder {
    const config: Config
    const coordinator: RxCoordinator

    ghost predicate Valid()
      reads this, coordinator, coordinator.slots
    {
      coordinator.Valid() && MaxPayload(config) > 0
    }

    ghost function Contents(): Table
      reads this, coordinator, coordinator.slots, coordinator.senderMetas
    {
      coordinator.Contents()
    }

    constructor (transmissionUnit: u16)
      requires transmissionUnit != HEADER_SIZE
      ensures Valid() && fresh(coordinator) && fresh(coordinator.Repr)
      ensures config == Config.Config(transmissionUnit) && Contents() == FreshTable()
    {
      config := Config.Config(transmissionUnit);
      coordinator := new RxCoordinator();
    }

    /** The part of `Decode` that works on the frame's slot. */
    method Accept(i: nat, header: HeaderMeta, frame: seq<byte>) returns (delivered: Option<seq<byte>>)
      requires Valid() && i < SLOT_COUNT && |frame| >= HEADER_SIZE
      requires Receive(CSharp, coordinator.slots[i], MaxPayload(config), header, frame).1 != Hangs
      modifies coordinator.slots
      ensures Valid()
      ensures var (slot, outcome) := Receive(CSharp, old(coordinator.slots[i]), MaxPayload(config), header, frame);
              coordinator.slots[..] == old(coordinator.slots[..])[i := slot] &&
              outcome == if delivered.Some? then Delivered(delivered.value) else Quiet
    {
      hide Step, Resize, Overwrite, SliceIdxToOffset, ReadHeader;
      var slots := coordinator.slots;
      NoOverrun(slots[i], MaxPayload(config), header, frame);
      var maxPayload: u16 := MaxPayload(config);
      var payload := frame[HEADER_SIZE..];
      var payloadSize: u16 := PayloadSize(CSharp, header, frame);
      assert payload[..payloadSize] == FramePayload(CSharp, header, frame);
      var offset: u16 := SliceIdxToOffset(header.sliceSerial, maxPayload);
      var step := CalcSliceStep(slots[i].state, header.sliceSerial, payloadSize, maxPayload, header.eop != 0);
      delivered := None;
      if step.e != Duplicate {
        slots[i] := slots[i].(payload := Resize(slots[i].payload, offset + payloadSize));
        slots[i] := slots[i].(payload := Overwrite(slots[i].payload, offset, payload[..payloadSize]));
        slots[i] := slots[i].(state := step.next);
        if step.e == Complete {
          delivered := Some(slots[i].payload[..step.next.termination]);
          slots[i] := slots[i].(state := ZERO_STATE);
        }
      }
    }

    /** One frame in, at most one package out. The frame must hold a header and its watermark scan must
        end, as it does for every honest frame. */
    method Decode(frame: seq<byte>) returns (delivered: Option<seq<byte>>)
      requires Valid() && |frame| >= HEADER_SIZE
      requires TableStep(CSharp, Contents(), config, frame).1 != Hangs
      modifies coordinator.slots, coordinator.senderMetas
      ensures Valid()
      ensures Contents() == TableStep(CSharp, old(Contents()), config, frame).0
      ensures Repeated(old(Contents()), frame) ==>
                Contents() == Clocked(old(Contents()), frame) && delivered == None
      ensures TableStep(CSharp, old(Contents()), config, frame).1 ==
              if delivered.Some? then Delivered(delivered.value) else Quiet
    {
      hide ReadHeader, Receive, Repeated, Clocked;
      if Repeated(Contents(), frame) {
        RepeatedOnlyClocks(CSharp, Contents(), config, frame);
      }
      HeaderFits(frame);
      var header := ReadHeader(frame);
      var coord := HeaderToCoordinate(config, header);
      coordinator.AdvanceGeneration(coord.senderId, coord.packageId);
      var i := coordinator.SlotAt(coord);
      delivered := Accept(i, header, frame);
    }
  }
}
