/** The C++ sender: an output stream that hands out whole windows and learns only later how much of the
    last one was used. */
module ZeroCopySender {
  import opened Words
  import opened Common
  import opened Tx
  import opened Packages
  import opened StreamSender

  /** Full slices and a non-empty final one, possibly full, make the lazy segmentation. */
  lemma LazyDone(config: Config, origin: Coordinate, sent: seq<byte>, full: nat, frames: seq<seq<byte>>,
      frame: seq<byte>)
    requires MaxPayload(config) > 0
    requires FullSlices(config, origin, sent, full, frames)
    requires Off(MaxPayload(config), full) < |sent| <= Off(MaxPayload(config), full) + MaxPayload(config)
    requires SliceFrame(config, origin, full, sent[Off(MaxPayload(config), full)..], true, frame)
    ensures Segmented(config, origin, Lazy(sent, MaxPayload(config)), frames + [frame])
  {
    hide SliceFrame, Off;
    var m := MaxPayload(config);
    OffDiv(m, full, |sent| - 1);
    var p := Lazy(sent, m);
    LazyWellFormed(sent, m);
    assert p.last == full;
    forall k: nat | k <= full
      ensures SliceFrame(config, origin, k, p.Payload(k), k == full, (frames + [frame])[k])
    {
      if k < full {
        assert FullSlice(config, origin, sent, k, frames[k]);
      } else {
        assert sent[Off(m, full)..Off(m, full) + p.Size(full)] == sent[Off(m, full)..];
      }
    }
  }

  /** Every frame is as long as the buffer it was made in. */
  ghost predicate WholeBuffers(length: nat, frames: seq<seq<byte>>) {
    forall k :: 0 <= k < |frames| ==> |frames[k]| == length
  }

  /** How much of a last window goes out: what was kept, or all of it when nothing was. */
  function LastSize(room: nat, returned: nat): nat {
    if returned < room then room - returned else room
  }

  /** A frame as the stream makes it, byte for byte: the header with the size cut to 16 bits, then the window it
      was made in, all of it. */
  ghost predicate WindowFrame(config: Config, origin: Coordinate, k: nat, size: nat, eop: bool, window: seq<byte>,
      frame: seq<byte>)
  {
    && MaxPayload(config) > 0
    && frame == ToBytes(Pack(MakeHeader(config, origin.(offset := U16(Off(MaxPayload(config), k))), U16(size), eop))) +
                window
  }

  /** The frames of the windows given up so far. */
  ghost predicate Framed(config: Config, origin: Coordinate, given: seq<seq<byte>>, frames: seq<seq<byte>>) {
    && |frames| == |given|
    && forall k: nat :: k < |given| ==> WindowFrame(config, origin, k, |given[k]|, false, given[k], frames[k])
  }

  lemma FramedSnoc(config: Config, origin: Coordinate, given: seq<seq<byte>>, frames: seq<seq<byte>>, window: seq<byte>,
      all: seq<seq<byte>>)
    requires Framed(config, origin, given, frames) && |all| == |frames| + 1 && all[..|frames|] == frames
    requires WindowFrame(config, origin, |given|, |window|, false, window, all[|frames|])
    ensures Framed(config, origin, given + [window], all)
  {
    hide WindowFrame;
    assert forall k: nat :: k < |frames| ==> all[k] == all[..|frames|][k];
  }

  class TxStream {
    const config: Config
    const buffer: array<byte>
    var cursor: Coordinate
    var written: int
    var nextCalled: bool
    var accumulated: int
    var wire: seq<seq<byte>>

    ghost const origin: Coordinate
    ghost var committed: seq<byte> // the windows given up so far
    ghost var windows: nat         // how many
    ghost var given: seq<seq<byte>> // one by one
    ghost var returned: nat        // bytes of the current window given back by BackUp

    /** The size of the windows handed out. The documentation asks for a buffer of at least a unit; the stream
        always uses all of it. */
    function Room(): nat
      requires buffer.Length >= HEADER_SIZE
    {
      buffer.Length - HEADER_SIZE
    }

    ghost predicate Valid()
      reads this
    {
      && ValidUnit(config.transmissionUnit) && buffer.Length >= config.transmissionUnit
      && |committed| == Off(Room(), windows) && accumulated == |committed|
      && cursor == origin.(offset := U16(Off(MaxPayload(config), windows)))
      && |wire| == |given| == windows && WholeBuffers(buffer.Length, wire)
      && Framed(config, origin, given, wire)
      && (Room() == MaxPayload(config) ==> FullSlices(config, origin, committed, windows, wire))
      && returned <= Room()
      && (nextCalled ==> written == Room() - returned || (written == 0 && returned == 0))
      && (!nextCalled ==> windows == 0 && returned == 0)
    }

    /** The current window, all of it. */
    ghost function Current(): seq<byte>
      requires Valid()
      reads this, buffer
    {
      if nextCalled then buffer[HEADER_SIZE..] else []
    }

    /** What becomes of the package when it ends now: the part of the current window that was kept, or all of
        it when nothing was. */
    ghost function Ending(): seq<byte>
      requires Valid()
      reads this, buffer
    {
      committed + if returned < Room() then Current()[..|Current()| - returned] else Current()
    }

    constructor (config: Config, coord: Coordinate, buffer: array<byte>)
      requires ValidUnit(config.transmissionUnit) && coord.offset == 0 && buffer.Length >= config.transmissionUnit
      ensures Valid() && !nextCalled && committed == [] && wire == []
      ensures origin == coord && this.config == config && this.buffer == buffer
    {
      this.config := config;
      this.buffer := buffer;
      cursor := coord;
      written := 0;
      nextCalled := false;
      accumulated := 0;
      wire := [];
      origin := coord;
      committed, windows, given, returned := [], 0, [], 0;
    }

    method PutHeader(packed: seq<byte>)
      requires |packed| == HEADER_SIZE <= buffer.Length
      modifies buffer
      ensures buffer[..] == Overwrite(old(buffer[..]), 0, packed)
    {
      forall i | 0 <= i < HEADER_SIZE {
        buffer[i] := packed[i];
      }
    }

    method CommitSlice(eop: bool, size: nat)
      requires ValidUnit(config.transmissionUnit) && buffer.Length >= config.transmissionUnit
      requires cursor == origin.(offset := U16(Off(MaxPayload(config), windows)))
      requires size <= Room()
      modifies this`cursor, this`wire, this`accumulated, buffer
      ensures accumulated == old(accumulated) + size
      ensures cursor == Advance(config, old(cursor))
      ensures |wire| == |old(wire)| + 1 && wire[..|old(wire)|] == old(wire)
      ensures |wire[|old(wire)|]| == buffer.Length
      ensures WindowFrame(config, origin, windows, size, eop, old(buffer[HEADER_SIZE..]), wire[|old(wire)|])
      ensures Room() == MaxPayload(config) ==>
                SliceFrame(config, origin, windows, old(buffer[HEADER_SIZE..HEADER_SIZE + size]), eop,
                  wire[|old(wire)|])
    {
      hide Off, ToBytes, Pack, Overwrite, MakeHeader;
      var slice := Prepare(config, cursor, U16(size), eop);
      var packed := ToBytes(Pack(slice.header));
      ArraySlice(buffer, HEADER_SIZE, HEADER_SIZE + size);
      OverwriteFront(buffer[..], packed, HEADER_SIZE, HEADER_SIZE + size);
      OverwriteAtFront(buffer[..], packed);
      ArraySlice(buffer, HEADER_SIZE, buffer.Length);
      PutHeader(packed);
      assert buffer[..] == packed + old(buffer[HEADER_SIZE..]);
      wire := wire + [buffer[..]];
      cursor := slice.next;
      accumulated := accumulated + size;
    }

    /** Hands out the next window and commits the previous one in full, even the part that was given back. */
    method Next() returns (start: nat, size: nat)
      requires Valid()
      modifies this, buffer
      ensures Valid() && nextCalled && returned == 0
      ensures start == HEADER_SIZE && size == Room()
      ensures committed == old(committed + Current())
      ensures given == old(given) + if old(nextCalled) then [old(Current())] else []
    {
      hide Off, SliceFrame, FullSlices, WindowFrame, Framed, MaxPayload;
      if nextCalled {
        ghost var window, frames, sent := Current(), wire, committed + Current();
        assert buffer[HEADER_SIZE..HEADER_SIZE + Room()] == window;
        CommitSlice(false, buffer.Length - HEADER_SIZE);
        assert wire == frames + [wire[|frames|]];
        if Room() == MaxPayload(config) {
          FullSlicesGrow(config, origin, committed, window, windows, frames);
          assert sent[Off(MaxPayload(config), windows)..] == window;
          OneMoreFull(config, origin, sent, windows, frames, wire[|frames|]);
        }
        CursorAfter(config, origin, windows);
        OffSucc(Room(), windows);
        FramedSnoc(config, origin, given, frames, window, wire);
        committed, windows, given := sent, windows + 1, given + [window];
      }
      OffSucc(Room(), 0);
      start, size := HEADER_SIZE, buffer.Length - HEADER_SIZE;
      nextCalled := true;
      written := 0;
      returned := 0;
    }

    /** Gives back the last `count` bytes of the current window. */
    method BackUp(count: nat)
      requires Valid() && nextCalled && count <= Room()
      modifies this`written, this`returned
      ensures Valid() && returned == count
    {
      written := buffer.Length - HEADER_SIZE - count;
      returned := count;
    }

    /** Ends the package. A stream that handed out no window sends nothing. */
    method Finalize()
      requires Valid()
      modifies this, buffer
      ensures !old(nextCalled) ==> wire == []
      ensures old(nextCalled) ==>
                |wire| == old(windows) + 1 && WholeBuffers(buffer.Length, wire) && wire[..old(windows)] == old(wire) &&
                WindowFrame(config, origin, old(windows), LastSize(Room(), old(returned)), true, old(Current()),
                            wire[old(windows)])
      ensures accumulated == |old(Ending())|
      ensures old(nextCalled) && Room() == MaxPayload(config) ==>
                old(Ending()) != [] && Segmented(config, origin, Lazy(old(Ending()), MaxPayload(config)), wire)
    {
      hide Off, SliceFrame, FullSlices, Segmented, WindowFrame, Framed, MaxPayload;
      if nextCalled {
        var size := if written > 0 then written else buffer.Length - HEADER_SIZE;
        ghost var window, frames := buffer[HEADER_SIZE..HEADER_SIZE + size], wire;
        ghost var sent := committed + window;
        assert sent == Ending();
        CommitSlice(true, size);
        assert wire == frames + [wire[|frames|]];
        if Room() == MaxPayload(config) {
          FullSlicesGrow(config, origin, committed, window, windows, frames);
          assert sent[Off(MaxPayload(config), windows)..] == window;
          LazyDone(config, origin, sent, windows, frames, wire[|frames|]);
        }
      }
    }
  }

  // ----- what a stream is asked to do -----

  /** One window: what it holds when the client is through with it, and the counts the client gave back, of
      which the last one stands. */
  datatype Window = Window(data: seq<byte>, backUps: seq<nat>) {

    function Returned(): nat {
      if backUps == [] then 0 else backUps[|backUps| - 1]
    }

    /** What the client means to send. */
    function Kept(): seq<byte>
      requires Returned() <= |data|
    {
      data[..|data| - Returned()]
    }
  }

  /** Every window is as large as the one handed out and no count exceeds it. */
  predicate Usable(m: nat, ws: seq<Window>) {
    forall i :: 0 <= i < |ws| ==>
      |ws[i].data| == m && forall j :: 0 <= j < |ws[i].backUps| ==> ws[i].backUps[j] <= m
  }

  /** Everything the client means to send. */
  function Intended(m: nat, ws: seq<Window>): seq<byte>
    requires Usable(m, ws)
  {
    if ws == [] then [] else Intended(m, ws[..|ws| - 1]) + ws[|ws| - 1].Kept()
  }

  /** The windows in full. */
  function Whole(ws: seq<Window>): seq<byte> {
    if ws == [] then [] else Whole(ws[..|ws| - 1]) + ws[|ws| - 1].data
  }

  /** What goes out: all windows in full, of the last one only what was kept unless nothing was. */
  function Sent(m: nat, ws: seq<Window>): seq<byte>
    requires Usable(m, ws) && ws != []
  {
    var w := ws[|ws| - 1];
    Whole(ws[..|ws| - 1]) + if w.Kept() == [] then w.data else w.Kept()
  }

  /** Nothing is given back except part of the last window. */
  ghost predicate BacksUpAtTheEnd(m: nat, ws: seq<Window>) {
    forall i :: 0 <= i < |ws| ==> if i == |ws| - 1 then ws[i].Returned() < m else ws[i].Returned() == 0
  }

  lemma {:induction false} IntendedAtMostWhole(m: nat, ws: seq<Window>)
    requires Usable(m, ws)
    ensures |Intended(m, ws)| <= |Whole(ws)| == Off(m, |ws|)
    ensures |Intended(m, ws)| == |Whole(ws)| <==> forall i :: 0 <= i < |ws| ==> ws[i].Returned() == 0
    ensures |Intended(m, ws)| == |Whole(ws)| ==> Intended(m, ws) == Whole(ws)
  {
    hide Off;
    OffSucc(m, 0);
    if ws != [] {
      var n := |ws| - 1;
      IntendedAtMostWhole(m, ws[..n]);
      OffSucc(m, n);
      assert forall i :: 0 <= i < n ==> ws[..n][i] == ws[i];
      assert ws[n].Returned() == 0 ==> ws[n].Kept() == ws[n].data;
    }
  }

  /** What goes out is never less than what the client means to send, and it is that exactly when nothing is
      given back except part of the last window. */
  lemma SentIsIntended(m: nat, ws: seq<Window>)
    requires m > 0 && Usable(m, ws) && ws != []
    ensures Sent(m, ws) != [] && |Intended(m, ws)| <= |Sent(m, ws)|
    ensures |Intended(m, ws)| == |Sent(m, ws)| <==> BacksUpAtTheEnd(m, ws)
    ensures BacksUpAtTheEnd(m, ws) ==> Sent(m, ws) == Intended(m, ws)
  {
    var n := |ws| - 1;
    IntendedAtMostWhole(m, ws[..n]);
    assert Intended(m, ws) == Intended(m, ws[..n]) + ws[n].Kept();
    hide Off, Whole, Intended;
    assert forall i :: 0 <= i < n ==> ws[..n][i] == ws[i];
    assert ws[n].Returned() < m <==> ws[n].Kept() != [];
  }

  method Fill(buffer: array<byte>, data: seq<byte>)
    requires buffer.Length == HEADER_SIZE + |data|
    modifies buffer
    ensures buffer[HEADER_SIZE..] == data
  {
    forall i | 0 <= i < |data| {
      buffer[HEADER_SIZE + i] := data[i];
    }
  }

  /** The client works on one window. */
  method Use(stream: TxStream, w: Window)
    requires stream.Valid() && stream.nextCalled && stream.returned == 0
    requires Usable(stream.Room(), [w])
    modifies stream`written, stream`returned, stream.buffer
    ensures stream.Valid() && stream.returned == w.Returned() && stream.buffer[HEADER_SIZE..] == w.data
  {
    hide Off, SliceFrame, FullSlices;
    assert [w][0] == w;
    Fill(stream.buffer, w.data);
    for j := 0 to |w.backUps|
      invariant stream.Valid() && stream.buffer[HEADER_SIZE..] == w.data
      invariant stream.returned == if j == 0 then 0 else w.backUps[j - 1]
    {
      stream.BackUp(w.backUps[j]);
    }
  }

  /** The client works its way through all windows. */
  method UseAll(stream: TxStream, ws: seq<Window>)
    requires stream.Valid() && !stream.nextCalled && stream.committed == []
    requires Usable(stream.Room(), ws)
    modifies stream, stream.buffer
    ensures stream.Valid() && stream.nextCalled == (ws != [])
    ensures stream.windows == Max(|ws| - 1, 0) && stream.committed == Whole(ws[..stream.windows])
    ensures |stream.wire| == stream.windows && GivenUp(stream.config, stream.origin, ws, stream.wire)
    ensures ws != [] ==>
              stream.returned == ws[|ws| - 1].Returned() && stream.buffer[HEADER_SIZE..] == ws[|ws| - 1].data
  {
    hide Off, SliceFrame, FullSlices, WindowFrame, Framed;
    OffSucc(stream.Room(), 0);
    for i := 0 to |ws|
      invariant stream.Valid() && stream.nextCalled == (i > 0)
      invariant stream.windows == Max(i - 1, 0) && stream.committed == Whole(ws[..stream.windows])
      invariant forall k :: 0 <= k < stream.windows ==> stream.given[k] == ws[k].data
      invariant i > 0 ==> stream.returned == ws[i - 1].Returned() && stream.buffer[HEADER_SIZE..] == ws[i - 1].data
    {
      if i > 0 { WholeSnoc(ws, i - 1); }
      var start, size := stream.Next();
      Use(stream, ws[i]);
    }
    FramedGivesUp(stream.config, stream.origin, stream.given, ws, stream.wire);
  }

  /** The frames of the leading windows, each sent whole. */
  ghost predicate GivenUp(config: Config, origin: Coordinate, ws: seq<Window>, wire: seq<seq<byte>>)
    requires |wire| <= |ws|
  {
    forall k: nat :: k < |wire| ==> WindowFrame(config, origin, k, |ws[k].data|, false, ws[k].data, wire[k])
  }

  lemma FramedGivesUp(config: Config, origin: Coordinate, given: seq<seq<byte>>, ws: seq<Window>, wire: seq<seq<byte>>)
    requires Framed(config, origin, given, wire) && |given| <= |ws|
    requires forall k :: 0 <= k < |given| ==> given[k] == ws[k].data
    ensures GivenUp(config, origin, ws, wire)
  {
    hide WindowFrame;
  }

  /** All windows went out, byte for byte: each whole with its full size, the last with what was kept of it and the
      end flag. */
  ghost predicate AllFramed(config: Config, origin: Coordinate, room: nat, ws: seq<Window>, wire: seq<seq<byte>>)
    requires Usable(room, ws) && ws != []
  {
    var n := |ws| - 1;
    && |wire| == n + 1
    && GivenUp(config, origin, ws, wire[..n])
    && WindowFrame(config, origin, n, LastSize(room, ws[n].Returned()), true, ws[n].data, wire[n])
  }

  /** What a successful serialization has sent. In a buffer of one unit it is the windows as the stream takes
      them. It is the lazy segmentation of what the client means to send if and only if the buffer is one unit
      long and nothing is given back except part of the last window. */
  ghost predicate SentAll(config: Config, origin: Coordinate, room: nat, ws: seq<Window>, wire: seq<seq<byte>>)
    requires MaxPayload(config) > 0 && Usable(room, ws) && ws != []
  {
    var m := MaxPayload(config);
    && Sent(room, ws) != []
    && (room == m ==> Segmented(config, origin, Lazy(Sent(room, ws), m), wire))
    && (Intended(room, ws) != [] ==>
         (Segmented(config, origin, Lazy(Intended(room, ws), m), wire) <==> room == m && BacksUpAtTheEnd(room, ws)))
  }

  method Finish(stream: TxStream, ws: seq<Window>)
    requires stream.Valid() && stream.nextCalled && ws != [] && Usable(stream.Room(), ws)
    requires stream.windows == |ws| - 1 && stream.committed == Whole(ws[..|ws| - 1])
    requires stream.returned == ws[|ws| - 1].Returned() && stream.buffer[HEADER_SIZE..] == ws[|ws| - 1].data
    requires |stream.wire| == |ws| - 1 && GivenUp(stream.config, stream.origin, ws, stream.wire)
    modifies stream, stream.buffer
    ensures |stream.wire| == |ws| && WholeBuffers(stream.buffer.Length, stream.wire)
    ensures AllFramed(stream.config, stream.origin, stream.Room(), ws, stream.wire)
    ensures SentAll(stream.config, stream.origin, stream.Room(), ws, stream.wire)
  {
    hide Off, SliceFrame, Segmented, FullSlices, WindowFrame, GivenUp, BacksUpAtTheEnd, Sent, Intended, Whole;
    SentEnding(stream.Room(), ws);
    assert stream.Ending() == Sent(stream.Room(), ws);
    SentIsIntended(stream.Room(), ws);
    stream.Finalize();
    ExactlyWhenKept(stream.config, stream.origin, stream.Room(), ws, stream.wire);
  }

  /** The C++ encoder: every message is the next package of this sender. */
  class TxEncoderCore {
    const config: Config
    const senderId: u8
    var currentPackageId: u8

    constructor (transmissionUnit: u16, senderId: u8)
      ensures config == Config.Config(transmissionUnit) && this.senderId == senderId && currentPackageId == 0
    {
      config := Config.Config(transmissionUnit);
      this.senderId := senderId;
      currentPackageId := 0;
    }

    /** `ws` is how the message serializer uses its windows and `ok` whether it succeeds. A failed
        serialization leaves its full windows without a final slice. Whatever the size of the buffer, every frame
        is pinned byte for byte. */
    method Push(ws: seq<Window>, ok: bool, buffer: array<byte>) returns (wire: seq<seq<byte>>)
      requires ValidUnit(config.transmissionUnit) && buffer.Length >= config.transmissionUnit
      requires Usable(buffer.Length - HEADER_SIZE, ws)
      modifies this, buffer
      ensures currentPackageId == U8(old(currentPackageId) + 1)
      ensures |wire| == (if ok then |ws| else Max(|ws| - 1, 0)) && WholeBuffers(buffer.Length, wire)
      ensures ok && ws != [] ==>
                AllFramed(config, Coordinate(senderId, old(currentPackageId), 0), buffer.Length - HEADER_SIZE, ws, wire)
      ensures !ok ==> GivenUp(config, Coordinate(senderId, old(currentPackageId), 0), ws, wire)
      ensures ok && ws != [] ==>
                SentAll(config, Coordinate(senderId, old(currentPackageId), 0), buffer.Length - HEADER_SIZE, ws, wire)
      ensures !ok && buffer.Length == config.transmissionUnit ==>
                FullSlices(config, Coordinate(senderId, old(currentPackageId), 0), Whole(ws[..|wire|]), |wire|, wire)
    {
      hide Off, FullSlices, SentAll, AllFramed, GivenUp, Framed, Whole;
      var stream := new TxStream(config, Coordinate(senderId, currentPackageId, 0), buffer);
      currentPackageId := U8(currentPackageId + 1);
      UseAll(stream, ws);
      if ok {
        if ws == [] {
          stream.Finalize();
        } else {
          Finish(stream, ws);
        }
      }
      wire := stream.wire;
    }
  }

  lemma WholeSnoc(ws: seq<Window>, i: nat)
    requires i < |ws|
    ensures Whole(ws[..i + 1]) == Whole(ws[..i]) + ws[i].data
  {
    assert ws[..i + 1][..i] == ws[..i];
  }

  lemma SentEnding(m: nat, ws: seq<Window>)
    requires m > 0 && Usable(m, ws) && ws != []
    ensures var w := ws[|ws| - 1];
            Sent(m, ws) == Whole(ws[..|ws| - 1]) + if w.Returned() < m then w.data[..|w.data| - w.Returned()]
              else w.data
  {
    hide Whole;
  }

  lemma ExactlyWhenKept(config: Config, origin: Coordinate, room: nat, ws: seq<Window>, wire: seq<seq<byte>>)
    requires ValidUnit(config.transmissionUnit) && room > 0
    requires Usable(room, ws) && ws != [] && Sent(room, ws) != []
    requires WholeBuffers(room + HEADER_SIZE, wire) && wire != []
    requires room == MaxPayload(config) ==> Segmented(config, origin, Lazy(Sent(room, ws), MaxPayload(config)), wire)
    ensures Intended(room, ws) != [] ==>
              (Segmented(config, origin, Lazy(Intended(room, ws), MaxPayload(config)), wire) <==>
               room == MaxPayload(config) && BacksUpAtTheEnd(room, ws))
  {
    hide Segmented, BacksUpAtTheEnd, Sent, Intended;
    SentIsIntended(room, ws);
    if Intended(room, ws) != [] && Segmented(config, origin, Lazy(Intended(room, ws), MaxPayload(config)), wire) {
      UnitFrames(config, origin, Lazy(Intended(room, ws), MaxPayload(config)), wire);
      SegmentedOnce(config, origin, Lazy(Sent(room, ws), MaxPayload(config)),
        Lazy(Intended(room, ws), MaxPayload(config)), wire);
    }
  }

  /** The frames of a segmentation are one unit long. */
  lemma UnitFrames(config: Config, origin: Coordinate, p: Package, frames: seq<seq<byte>>)
    requires Segmented(config, origin, p, frames)
    ensures |frames| > 0 && |frames[0]| == config.transmissionUnit
  {
  }
}
