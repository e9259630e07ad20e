/** The frames of a staged upload. */
module UploadFrames {
  import opened Bytes

  const CHUNK_BYTES := 256 * 1024
  const CIPHER_OVERHEAD := 29

  /** One staged chunk and the one ciphertext ever made for its position. The context of a
      chunk names the upload, its size and the chunk's index, and each upload has its own key. */
  datatype Frame = Frame(plain: seq<byte>, cipher: seq<byte>)

  predicate ValidFrame(frame: Frame) {
    0 < |frame.plain| <= CHUNK_BYTES && |frame.cipher| == |frame.plain| + CIPHER_OVERHEAD
  }

  predicate ValidFrames(frames: seq<Frame>) {
    forall frame <- frames :: ValidFrame(frame)
  }

  /** Decryption: only the ciphertext made for a context opens under it. */
  function Decrypt(frames: seq<Frame>, index: nat, cipher: seq<byte>): Option<seq<byte>> {
    if index < |frames| && frames[index].cipher == cipher then Some(frames[index].plain) else None
  }

  /** A number as `width` bytes, least significant first. */
  function Le(n: nat, width: nat): (bytes: seq<byte>)
    ensures |bytes| == width
  {
    if width == 0 then [] else [LowByte(n)] + Le(n / 0x100, width - 1)
  }

  function LowByte(n: nat): byte {
    n % 0x100
  }

  function FromLe(bytes: seq<byte>): nat {
    if bytes == [] then 0 else bytes[0] + 0x100 * FromLe(bytes[1..])
  }

  function Limit(width: nat): nat {
    if width == 0 then 1 else 0x100 * Limit(width - 1)
  }

  lemma {:induction false} FromLeOfLe(n: nat, width: nat)
    requires n < Limit(width)
    ensures FromLe(Le(n, width)) == n
  {
    if width > 0 {
      FromLeOfLe(n / 0x100, width - 1);
      assert Le(n, width)[1..] == Le(n / 0x100, width - 1);
    }
  }

  lemma {:induction false} LeOfFromLe(bytes: seq<byte>)
    ensures Le(FromLe(bytes), |bytes|) == bytes
  {
    if bytes != [] {
      LeOfFromLe(bytes[1..]);
      var rest := FromLe(bytes[1..]);
      assert (bytes[0] + 0x100 * rest) / 0x100 == rest && LowByte(bytes[0] + 0x100 * rest) == bytes[0];
    }
  }

  /** A 32-bit length. */
  function Le32(n: nat): (bytes: seq<byte>)
    ensures |bytes| == 4
  {
    Le(n, 4)
  }

  function FromLe32(bytes: seq<byte>): nat
    requires |bytes| == 4
  {
    FromLe(bytes)
  }

  lemma LengthRoundTrip(n: nat, bytes: seq<byte>)
    requires n < 0x1_0000_0000 && |bytes| == 4
    ensures FromLe32(Le32(n)) == n
    ensures FromLe32(bytes) == n ==> bytes == Le32(n)
  {
    hide Le, FromLe;
    assert Limit(2) == 0x1_0000 && Limit(3) == 0x100_0000 && Limit(4) == 0x1_0000_0000;
    FromLeOfLe(n, 4);
    LeOfFromLe(bytes);
  }

  function FrameBytes(frame: Frame): seq<byte>
    requires ValidFrame(frame)
  {
    Le32(|frame.cipher|) + frame.cipher
  }

  function Encode(frames: seq<Frame>): seq<byte>
    requires ValidFrames(frames)
  {
    if frames == [] then [] else Encode(frames[..|frames| - 1]) + FrameBytes(frames[|frames| - 1])
  }

  function Plain(frames: seq<Frame>): seq<byte> {
    if frames == [] then [] else Plain(frames[..|frames| - 1]) + frames[|frames| - 1].plain
  }

  lemma EncodeNext(frames: seq<Frame>, i: nat)
    requires ValidFrames(frames) && i < |frames|
    ensures Encode(frames[..i + 1]) == Encode(frames[..i]) + FrameBytes(frames[i])
    ensures Plain(frames[..i + 1]) == Plain(frames[..i]) + frames[i].plain
  {
    assert frames[..i + 1][..i] == frames[..i];
  }

  lemma {:induction false} EncodePrefix(frames: seq<Frame>, i: nat)
    requires ValidFrames(frames) && i <= |frames|
    ensures Encode(frames[..i]) <= Encode(frames) && Plain(frames[..i]) <= Plain(frames)
    decreases |frames| - i
  {
    if i == |frames| {
      assert frames[..i] == frames;
    } else {
      EncodePrefix(frames, i + 1);
      EncodeNext(frames, i);
    }
  }
}

module UploadFile {
  import opened Bytes
  import opened UploadFrames

  const MAX_REQUEST_FILE_BYTES := 4 * 1024 * 1024 * 1024
  const MAX_ENTRIES := 128

  // -------------------------------------------------------------------- reading

  datatype ReadResult = Data(bytes: seq<byte>) | Damaged | Panicked

  /** The fields of a reader. */
  datatype ReaderState = ReaderState(offset: nat, buffer: seq<byte>, position: nat, index: nat, remaining: nat, ended: bool)

  /** A frame read and opened; on an error some fields have changed already. */
  function Refilled(disk: seq<byte>, frames: seq<Frame>, st: ReaderState): (ReaderState, bool) {
    if |disk| - st.offset < 4 then (st.(offset := Max(st.offset, |disk|)), false)
    else
      var length, from := FromLe32(disk[st.offset..st.offset + 4]), st.offset + 4;
      if !(CIPHER_OVERHEAD <= length <= CHUNK_BYTES + CIPHER_OVERHEAD) then (st.(offset := from), false)
      else
        var cipher := disk[from..Min(from + length, |disk|)];
        var plain := Decrypt(frames, st.index, cipher);
        if |cipher| != length || plain.None? then (st.(offset := from + |cipher|), false)
        else Accepted(disk, frames, st.(offset := from + length, buffer := plain.value))
  }

  function Accepted(disk: seq<byte>, frames: seq<Frame>, st: ReaderState): (ReaderState, bool) {
    if st.buffer == [] || |st.buffer| > st.remaining then (st, false)
    else if st.index + 1 == |frames| && |st.buffer| != st.remaining then (st, false)
    else if st.index + 1 == |frames| && st.offset < |disk| then (st.(offset := st.offset + 1), false)
    else (st.(index := st.index + 1, position := 0), true)
  }

  function Taken(st: ReaderState, size: nat): (ReaderState, ReadResult) {
    if st.position > |st.buffer| then (st, Panicked)
    else
      var count := Min(size, |st.buffer| - st.position);
      if count > st.remaining then (st, Panicked)
      else (st.(position := st.position + count, remaining := st.remaining - count),
            Data(st.buffer[st.position..st.position + count]))
  }

  /** One call of read, also after an error. */
  function ReadStep(disk: seq<byte>, frames: seq<Frame>, st: ReaderState, size: nat): (ReaderState, ReadResult) {
    if size == 0 || st.ended then (st, Data([]))
    else if st.position != |st.buffer| then Taken(st, size)
    else if st.index == |frames| then
      if st.remaining != 0 then (st, Damaged)
      else if st.offset < |disk| then (st.(offset := st.offset + 1), Damaged)
      else (st.(ended := true), Data([]))
    else
      var next := Refilled(disk, frames, st);
      if next.1 then Taken(next.0, size) else (next.0, Damaged)
  }

  /** Reads a staged upload back from whatever the disk holds. */
  class EncryptedReader {
    const disk: seq<byte>
    const frames: seq<Frame>
    const chunks: nat
    var offset: nat
    var buffer: seq<byte>
    var position: nat
    var index: nat
    var remaining: nat
    var ended: bool
    ghost var delivered: seq<byte>
    ghost var failed: bool

    constructor (disk: seq<byte>, frames: seq<Frame>, size: nat)
      requires ValidFrames(frames) && |Plain(frames)| == size
      ensures this.disk == disk && this.frames == frames
      ensures Valid() && !failed && !ended && delivered == []
      ensures State() == ReaderState(0, [], 0, 0, size, false)
    {
      this.disk, this.frames, chunks, remaining := disk, frames, |frames|, size;
      offset, buffer, position, index, ended := 0, [], 0, 0, false;
      delivered, failed := [], false;
      new;
      assert frames[..0] == [];
    }

    function State(): ReaderState
      reads this
    {
      ReaderState(offset, buffer, position, index, remaining, ended)
    }

    /** What holds until an error has been reported. */
    ghost predicate Valid()
      reads this
    {
      && ValidFrames(frames) && chunks == |frames|
      && (!failed ==>
            && index <= chunks && offset <= |disk| && position <= |buffer|
            && disk[..offset] == Encode(frames[..index])
            && delivered + buffer[position..] == Plain(frames[..index])
            && |delivered| + remaining == |Plain(frames)|
            && (index == chunks && chunks > 0 ==> offset == |disk|)
            && (ended ==> index == chunks && position == |buffer| && offset == |disk|))
    }

    ghost predicate Intact()
    {
      ValidFrames(frames) && disk == Encode(frames)
    }

    /** Before any error: what is delivered continues the staged bytes; the end is signalled only
        after all of them, and only when the file is exactly the staged frames; an error only when
        it is not. */
    method Read(size: nat) returns (result: ReadResult)
      requires Valid()
      modifies this
      ensures Valid() && failed == (old(failed) || !result.Data?)
      ensures !old(failed) ==> !result.Panicked?
      ensures !old(failed) && result.Data? ==>
        && |result.bytes| <= size && delivered == old(delivered) + result.bytes
        && delivered <= Plain(frames)
        && (result.bytes == [] && size > 0 ==> delivered == Plain(frames) && Intact())
      ensures !old(failed) && result.Damaged? ==> !Intact()
      ensures old(failed) || !result.Data? ==> delivered == old(delivered)
      ensures (State(), result) == ReadStep(disk, frames, old(State()), size)
    {
      hide Encode, Plain, FrameBytes, ValidFrame, ValidFrames, Refilled;
      if size == 0 || ended {
        result := Data([]);
        Idle();
        return;
      }
      if position == |buffer| {
        if index == chunks {
          if remaining != 0 || offset < |disk| {
            AtTheEnd();
            failed := true;
            offset := if remaining == 0 then offset + 1 else offset;
            return Damaged;
          }
          AtTheEnd();
          ended := true;
          return Data([]);
        }
        var refilled := Refill();
        if !refilled {
          return Damaged;
        }
      }
      if position > |buffer| {
        failed := true;
        return Panicked;
      }
      var count := Min(size, |buffer| - position);
      if !failed {
        Ahead(count);
      }
      if count > remaining {
        failed := true;
        return Panicked;
      }
      result := Take(count);
    }

    lemma Idle()
      requires Valid()
      ensures !failed ==> delivered <= Plain(frames)
      ensures !failed && ended ==> delivered == Plain(frames) && Intact()
    {
      hide Encode, Plain;
      if !failed {
        EncodePrefix(frames, index);
        if ended {
          assert frames[..index] == frames;
          assert disk[..offset] == disk;
        }
      }
    }

    lemma AtTheEnd()
      requires Valid() && position == |buffer| && index == chunks
      ensures !failed ==> delivered == Plain(frames) && remaining == 0
      ensures !failed && offset == |disk| ==> Intact()
      ensures !failed && offset < |disk| ==> !Intact()
    {
      hide Encode, Plain;
      if !failed {
        assert frames[..index] == frames;
        assert offset == |disk| ==> disk[..offset] == disk;
      }
    }

    /** Hands out the next bytes of the buffer. */
    method Take(count: nat) returns (result: ReadResult)
      requires Valid() && position + count <= |buffer| && count <= remaining && (!failed ==> !ended)
      requires !failed ==> count > 0
      modifies `position, `remaining, `delivered
      ensures Valid() && result.Data? && |result.bytes| == count
      ensures !failed ==>
        delivered == old(delivered) + result.bytes && delivered <= Plain(frames)
      ensures failed ==> delivered == old(delivered)
      ensures State() == old(State()).(position := old(position) + count, remaining := old(remaining) - count)
      ensures result.bytes == buffer[old(position)..position]
    {
      hide Encode, Plain, ValidFrames;
      var bytes := buffer[position..position + count];
      result := Data(bytes);
      if !failed {
        delivered := delivered + bytes;
      }
      position := position + count;
      remaining := remaining - count;
      if !failed {
        EncodePrefix(frames, index);
        assert buffer[old(position)..] == bytes + buffer[position..];
      }
    }

    lemma Ahead(count: nat)
      requires Valid() && !failed && position + count <= |buffer|
      ensures |delivered| + count <= |Plain(frames)|
    {
      hide Encode, Plain, ValidFrames;
      EncodePrefix(frames, index);
    }

    /** Reads and opens the next frame. */
    method Refill() returns (ok: bool)
      requires Valid() && position == |buffer| && index != chunks && (!failed ==> !ended)
      modifies this
      ensures Valid() && failed == (old(failed) || !ok) && ended == old(ended) && delivered == old(delivered)
      ensures !old(failed) && ok ==> position == 0 && buffer != []
      ensures !old(failed) && !ok ==> !Intact()
      ensures (State(), ok) == Refilled(disk, frames, old(State()))
    {
      hide Encode, Plain, FrameBytes, FromLe32, Le32, ValidFrame, ValidFrames, Decrypt;
      ghost var start := offset;
      ok := false;
      if !failed {
        NextFrame();
      }
      if |disk| - offset < 4 {
        failed := true;
        offset := Max(offset, |disk|);
        return;
      }
      var length := FromLe32(disk[offset..offset + 4]);
      offset := offset + 4;
      if !(CIPHER_OVERHEAD <= length <= CHUNK_BYTES + CIPHER_OVERHEAD) {
        failed := true;
        return;
      }
      var cipher := disk[offset..Min(offset + length, |disk|)];
      offset := offset + |cipher|;
      if |cipher| != length {
        failed := true;
        return;
      }
      var plain := Decrypt(frames, index, cipher);
      if plain.None? {
        failed := true;
        return;
      }
      if !failed {
        Opened(start, length, cipher, plain.value);
      }
      buffer := plain.value;
      ok := Accept();
    }

    /** Accepts the frame in the buffer when it fits what is still expected. */
    method Accept() returns (ok: bool)
      requires chunks == |frames|
      modifies `failed, `offset, `index, `position
      ensures failed == (old(failed) || !ok)
      ensures (State(), ok) == Accepted(disk, frames, old(State()))
    {
      ok := false;
      if buffer == [] || |buffer| > remaining {
        failed := true;
        return;
      }
      if index + 1 == chunks {
        if |buffer| != remaining || offset < |disk| {
          failed := true;
          offset := if |buffer| == remaining then offset + 1 else offset;
          return;
        }
      }
      index := index + 1;
      position := 0;
      ok := true;
    }

    /** What an intact file holds at this point. */
    lemma NextFrame()
      requires Valid() && !failed && index < chunks
      ensures CIPHER_OVERHEAD <= |frames[index].cipher| <= CHUNK_BYTES + CIPHER_OVERHEAD
      ensures Intact() ==>
        && offset + 4 + |frames[index].cipher| <= |disk|
        && disk[offset..offset + 4] == Le32(|frames[index].cipher|)
        && FromLe32(disk[offset..offset + 4]) == |frames[index].cipher|
        && disk[offset + 4..offset + 4 + |frames[index].cipher|] == frames[index].cipher
        && Decrypt(frames, index, frames[index].cipher).Some?
        && (index + 1 == chunks ==> offset + 4 + |frames[index].cipher| == |disk|)
    {
      hide Encode, Plain, FromLe32, Le32;
      assert frames[index] in frames;
      if Intact() {
        EncodeNext(frames, index);
        EncodePrefix(frames, index + 1);
        LengthRoundTrip(|frames[index].cipher|, Le32(|frames[index].cipher|));
        assert Encode(frames[..index + 1]) == disk[..offset] + FrameBytes(frames[index]);
        assert |Encode(frames[..index + 1])| == offset + 4 + |frames[index].cipher|;
        assert disk[..offset + 4 + |frames[index].cipher|] == Encode(frames[..index + 1]);
        assert disk[offset..offset + 4] == disk[..offset + 4 + |frames[index].cipher|][offset..offset + 4];
        assert disk[offset + 4..offset + 4 + |frames[index].cipher|] == disk[..offset + 4 + |frames[index].cipher|][offset + 4..];
        if index + 1 == chunks {
          assert frames[..index + 1] == frames;
        }
      }
    }

    /** A ciphertext that opens is the staged one, so the file agrees with the frames up to it. */
    lemma Opened(start: nat, length: nat, cipher: seq<byte>, plain: seq<byte>)
      requires ValidFrames(frames) && chunks == |frames| && index < chunks && position == |buffer|
      requires start + 4 + length == offset <= |disk| && |cipher| == length
      requires disk[..start] == Encode(frames[..index])
      requires length == FromLe32(disk[start..start + 4]) && cipher == disk[start + 4..start + 4 + length]
      requires Decrypt(frames, index, cipher) == Some(plain)
      requires delivered == Plain(frames[..index]) && |delivered| + remaining == |Plain(frames)|
      ensures plain == frames[index].plain && 0 < |plain| <= remaining
      ensures index + 1 == chunks ==> |plain| == remaining
      ensures disk[..offset] == Encode(frames[..index + 1])
      ensures delivered + plain == Plain(frames[..index + 1])
      ensures offset < |disk| && index + 1 == chunks ==> !Intact()
    {
      hide Encode, Plain, FromLe32, Le32;
      assert frames[index] in frames;
      LengthRoundTrip(length, disk[start..start + 4]);
      EncodeNext(frames, index);
      EncodePrefix(frames, index + 1);
      assert disk[..offset] == disk[..start] + disk[start..start + 4] + disk[start + 4..offset];
      if index + 1 == chunks {
        assert frames[..index + 1] == frames;
      }
    }
  }

  /** A reader that is asked again after it reported a damaged end hands out bytes of the rejected frame from where the
      frame before it ended: here, with one byte behind the last of two frames. */
  lemma StaleBytesAfterDamage(a: Frame, b: Frame, extra: byte, size: nat)
    requires ValidFrame(a) && ValidFrame(b) && |a.plain| < |b.plain| && size >= |a.plain| + |b.plain|
    ensures ValidFrames([a, b])
    ensures
      var disk, frames := Encode([a, b]) + [extra], [a, b];
      var first := ReadStep(disk, frames, ReaderState(0, [], 0, 0, |a.plain| + |b.plain|, false), size);
      var second := ReadStep(disk, frames, first.0, size);
      && first.1 == Data(a.plain) && second.1 == Damaged
      && ReadStep(disk, frames, second.0, size).1 == Data(b.plain[|a.plain|..])
  {
    hide Encode, FrameBytes, Refilled;
    var frames := [a, b];
    var disk := Encode(frames) + [extra];
    TwoFrames(a, b);
    var start := ReaderState(0, [], 0, 0, |a.plain| + |b.plain|, false);
    var middle := ReaderState(|FrameBytes(a)|, a.plain, |a.plain|, 1, |b.plain|, false);
    FrameOpens(disk, frames, start, a);
    FrameOpens(disk, frames, middle, b);
    hide ValidFrame, ValidFrames;
    assert a.plain[0..|a.plain|] == a.plain;
    assert b.plain[|a.plain|..|b.plain|] == b.plain[|a.plain|..];
    assert ReadStep(disk, frames, start, size) == (middle, Data(a.plain));
  }

  lemma TwoFrames(a: Frame, b: Frame)
    requires ValidFrame(a) && ValidFrame(b)
    ensures ValidFrames([a, b]) && Encode([a, b]) == FrameBytes(a) + FrameBytes(b)
  {
    hide FrameBytes;
    assert [a, b][..1] == [a] && [a][..0] == [];
    assert Encode([a]) == [] + FrameBytes(a);
  }

  /** A frame at the reader's offset is read and opened. */
  lemma FrameOpens(disk: seq<byte>, frames: seq<Frame>, st: ReaderState, frame: Frame)
    requires ValidFrame(frame) && st.index < |frames| && frames[st.index] == frame
    requires st.offset + |FrameBytes(frame)| <= |disk|
    requires disk[st.offset..st.offset + |FrameBytes(frame)|] == FrameBytes(frame)
    ensures Refilled(disk, frames, st) ==
      Accepted(disk, frames, st.(offset := st.offset + |FrameBytes(frame)|, buffer := frame.plain))
  {
    hide FromLe32, Le32, Accepted;
    var header := disk[st.offset..st.offset + 4];
    assert header == FrameBytes(frame)[..4];
    LengthRoundTrip(|frame.cipher|, header);
    assert disk[st.offset + 4..st.offset + 4 + |frame.cipher|] == FrameBytes(frame)[4..];
  }

  datatype Ending = Open | Clean | Broken

  /** Reads with one buffer size after another until the first end or error. */
  method Drain(reader: EncryptedReader, sizes: seq<nat>) returns (got: seq<byte>, ending: Ending)
    requires reader.Valid() && !reader.failed && reader.delivered == []
    modifies reader
    ensures reader.Valid() && got <= Plain(reader.frames)
    ensures ending.Clean? ==> got == Plain(reader.frames) && reader.Intact()
    ensures ending.Broken? ==> !reader.Intact()
    ensures reader.Intact() && |sizes| > |Plain(reader.frames)| && (forall size <- sizes :: size > 0) ==> ending.Clean?
  {
    hide Plain, Encode;
    got, ending := [], Open;
    var i := 0;
    while i < |sizes|
      invariant 0 <= i <= |sizes| && reader.Valid() && !reader.failed
      invariant reader.delivered == got && got <= Plain(reader.frames)
      invariant (forall size <- sizes :: size > 0) ==> i <= |got|
    {
      assert sizes[i] in sizes;
      var result := reader.Read(sizes[i]);
      if !result.Data? {
        return got, Broken;
      }
      if result.bytes == [] && sizes[i] > 0 {
        return got, Clean;
      }
      got := got + result.bytes;
      i := i + 1;
    }
  }

  // -------------------------------------------------------------------- staging

  datatype Reference = Reference(id: string, name: string, size: nat, mediaType: string)

  datatype Source = Temporary(frames: seq<Frame>) | Attachment

  datatype Entry = Entry(owner: string, reference: Reference, source: Source, written: nat, chunks: nat,
                         complete: bool, workspace: Option<string>)

  predicate Appendable(entry: Entry, offset: nat, length: nat) {
    && !entry.complete && offset == entry.written && 0 < length <= CHUNK_BYTES
    && entry.written + length <= entry.reference.size && entry.source.Temporary?
  }

  ghost predicate ValidEntry(id: string, entry: Entry) {
    && entry.reference.id == id && entry.reference.size <= MAX_REQUEST_FILE_BYTES
    && (entry.complete ==> entry.written == entry.reference.size)
    && (entry.source.Temporary? ==>
          && ValidFrames(entry.source.frames) && entry.chunks == |entry.source.frames|
          && entry.written == |Plain(entry.source.frames)| <= entry.reference.size)
  }

  class RequestFileStore {
    var entries: map<string, Entry>
    /** The files as the appends wrote them. */
    var files: map<string, seq<byte>>

    constructor ()
      ensures Valid() && entries == map[]
    {
      entries, files := map[], map[];
    }

    ghost predicate Valid()
      reads this
    {
      forall id <- entries ::
        && ValidEntry(id, entries[id])
        && (entries[id].source.Temporary? ==> id in files && files[id] == Encode(entries[id].source.frames))
    }

    predicate Owns(owner: string, id: string)
      reads this
    {
      id in entries && entries[id].owner == owner
    }

    /** Expired uploads are dropped first; then size and number decide. */
    method Register(entry: Entry, expired: set<string>) returns (ok: bool)
      requires Valid() && entry.reference.id !in entries
      requires entry.reference.size <= MAX_REQUEST_FILE_BYTES ==> ValidEntry(entry.reference.id, entry)
      requires entry.source.Temporary? ==> entry.source.frames == []
      modifies this
      ensures Valid()
      ensures ok <==> entry.reference.size <= MAX_REQUEST_FILE_BYTES && |old(entries) - expired| < MAX_ENTRIES
      ensures entries == if ok then (old(entries) - expired)[entry.reference.id := entry] else old(entries) - expired
    {
      hide ValidEntry;
      entries := entries - expired;
      if entry.reference.size > MAX_REQUEST_FILE_BYTES || |entries| >= MAX_ENTRIES {
        return false;
      }
      entries := entries[entry.reference.id := entry];
      files := files[entry.reference.id := []];
      ok := true;
    }

    method Create(owner: string, reference: Reference, expired: set<string>) returns (ok: bool)
      requires Valid() && reference.id !in entries
      modifies this
      ensures Valid()
      ensures ok <==> reference.size <= MAX_REQUEST_FILE_BYTES && |old(entries) - expired| < MAX_ENTRIES
      ensures entries == if ok
        then (old(entries) - expired)[reference.id := Entry(owner, reference, Temporary([]), 0, 0, false, None)]
        else old(entries) - expired
    {
      ok := Register(Entry(owner, reference, Temporary([]), 0, 0, false, None), expired);
    }

    /** `cipher` is the encryption of the bytes under the context of the next chunk. */
    method AppendChunk(owner: string, id: string, offset: nat, bytes: seq<byte>, cipher: seq<byte>, writable: bool)
      returns (ok: bool)
      requires Valid() && |cipher| == |bytes| + CIPHER_OVERHEAD
      modifies this
      ensures Valid()
      ensures ok <==>
        && id in old(entries) && old(entries)[id].owner == owner && !old(entries)[id].complete
        && old(entries)[id].source.Temporary? && offset == old(entries)[id].written
        && 0 < |bytes| <= CHUNK_BYTES && old(entries)[id].written + |bytes| <= old(entries)[id].reference.size
        && writable
      ensures !ok ==> entries == old(entries) && files == old(files)
      ensures ok ==>
        var entry := old(entries)[id];
        entries == old(entries)[id := entry.(source := Temporary(entry.source.frames + [Frame(bytes, cipher)]),
                                             written := entry.written + |bytes|, chunks := entry.chunks + 1)]
        && Plain(entries[id].source.frames) == Plain(entry.source.frames) + bytes
        && files == old(files)[id := Encode(entries[id].source.frames)]
    {
      hide ValidFrames, Encode, Plain, FrameBytes;
      if !Owns(owner, id) || !Appendable(entries[id], offset, |bytes|) || !writable {
        return false;
      }
      var entry := entries[id];
      StagedNext(entry.source.frames, Frame(bytes, cipher));
      entries := entries[id := entry.(source := Temporary(entry.source.frames + [Frame(bytes, cipher)]),
                                      written := entry.written + |bytes|, chunks := entry.chunks + 1)];
      files := files[id := files[id] + Le32(|cipher|) + cipher];
      ok := true;
    }

    method Finish(owner: string, reference: Reference) returns (ok: bool)
      requires Valid()
      modifies `entries
      ensures Valid()
      ensures ok <==>
        && reference.id in old(entries) && old(entries)[reference.id].owner == owner
        && old(entries)[reference.id].reference == reference && old(entries)[reference.id].written == reference.size
      ensures entries == if ok then old(entries)[reference.id := old(entries)[reference.id].(complete := true)]
                         else old(entries)
    {
      if !Owns(owner, reference.id) || entries[reference.id].reference != reference
         || entries[reference.id].written != reference.size {
        return false;
      }
      entries := entries[reference.id := entries[reference.id].(complete := true)];
      ok := true;
    }

    /** A saved attachment stands in for staged bytes: complete at once, and bound to its workspace. */
    method Attach(owner: string, workspace: string, reference: Reference, expired: set<string>) returns (ok: bool)
      requires Valid() && reference.id !in entries
      modifies this
      ensures Valid()
      ensures ok <==> reference.size <= MAX_REQUEST_FILE_BYTES && |old(entries) - expired| < MAX_ENTRIES
      ensures entries == if ok
        then (old(entries) - expired)[reference.id := Entry(owner, reference, Attachment, reference.size, 0, true, Some(workspace))]
        else old(entries) - expired
    {
      ok := Register(Entry(owner, reference, Attachment, reference.size, 0, true, Some(workspace)), expired);
    }

    /** Opens a complete upload for the workspace that used it first; staged bytes are read back from whatever the
        disk holds by now. */
    method Reader(owner: string, workspace: string, reference: Reference, disk: seq<byte>, expired: set<string>)
      returns (ok: bool, reader: EncryptedReader?)
      requires Valid()
      modifies `entries
      ensures Valid()
      ensures ok <==>
        && reference.id !in expired && reference.id in old(entries) && old(entries)[reference.id].owner == owner
        && old(entries)[reference.id].complete
        && old(entries)[reference.id].reference == reference
        && old(entries)[reference.id].workspace in {None, Some(workspace)}
      ensures reader != null <==> ok && old(entries)[reference.id].source.Temporary?
      ensures reader != null ==>
        && fresh(reader) && reader.Valid() && !reader.failed && reader.delivered == [] && reader.disk == disk
        && reader.frames == old(entries)[reference.id].source.frames
        && |Plain(reader.frames)| == reference.size
        && (disk == old(files)[reference.id] ==> reader.Intact())
      ensures entries == if ok
        then (old(entries) - expired)[reference.id := old(entries)[reference.id].(workspace := Some(workspace))]
        else old(entries) - expired
    {
      hide ValidFrames, Encode, Plain;
      ok, reader := false, null;
      entries := entries - expired;
      if !Owns(owner, reference.id) {
        return;
      }
      var entry := entries[reference.id];
      if !entry.complete || entry.reference != reference || entry.workspace !in {None, Some(workspace)} {
        return;
      }
      entries := entries[reference.id := entry.(workspace := Some(workspace))];
      ok := true;
      if entry.source.Temporary? {
        reader := new EncryptedReader(disk, entry.source.frames, reference.size);
      }
    }

    method Release(owner: string, reference: Reference) returns (ok: bool)
      requires Valid()
      modifies `entries
      ensures Valid()
      ensures ok <==> reference.id in old(entries) ==>
        old(entries)[reference.id].owner == owner && old(entries)[reference.id].reference == reference
      ensures entries == if ok then old(entries) - {reference.id} else old(entries)
    {
      if reference.id in entries {
        if entries[reference.id].owner != owner || entries[reference.id].reference != reference {
          return false;
        }
      }
      entries := entries - {reference.id};
      ok := true;
    }
  }

  lemma StagedNext(frames: seq<Frame>, frame: Frame)
    requires ValidFrames(frames) && ValidFrame(frame)
    ensures ValidFrames(frames + [frame])
    ensures Plain(frames + [frame]) == Plain(frames) + frame.plain
    ensures Encode(frames + [frame]) == Encode(frames) + Le32(|frame.cipher|) + frame.cipher
  {
    assert (frames + [frame])[..|frames|] == frames;
  }
}
