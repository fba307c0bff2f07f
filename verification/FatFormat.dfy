/** What the structures of a FAT16 volume look like on the disk: packed, little-endian, in the order fat.c declares. */
module FatFormat {
  import opened Common
  import opened Blkdev
  import opened FatGeometry
  import opened FatDir

  /** The number that bytes stand for, the least significant first. */
  function LeValue(s: seq<Byte>): nat {
    if s == [] then 0 else s[0] as nat + 256 * LeValue(s[1..])
  }

  lemma LeTwo(a: Byte, b: Byte)
    ensures LeValue([a, b]) == a as nat + 256 * b as nat
  {
    assert [b][1..] == [] && LeValue([b]) == b as nat;
    assert [a, b][1..] == [b];
  }

  lemma LeFour(a: Byte, b: Byte, c: Byte, d: Byte)
    ensures LeValue([a, b, c, d]) == LeValue([a, b]) + 0x1_0000 * LeValue([c, d])
  {
    assert [a, b, c, d][1..] == [b, c, d] && [b, c, d][1..] == [c, d];
    var rest := [b, c, d];
    assert LeValue([a, b, c, d]) == a as nat + 256 * LeValue(rest);
    assert rest[1..] == [c, d] && LeValue(rest) == b as nat + 256 * LeValue([c, d]);
    LeTwo(a, b);
  }

  lemma ReadTwo(s: seq<Byte>, i: nat)
    requires i + 2 <= |s|
    ensures U16(s, i) == LeValue(s[i..i + 2])
  {
    assert s[i..i + 2] == [s[i], s[i + 1]];
    LeTwo(s[i], s[i + 1]);
  }

  lemma ReadFour(s: seq<Byte>, i: nat)
    requires i + 4 <= |s|
    ensures U32(s, i) == LeValue(s[i..i + 4])
  {
    assert s[i..i + 4] == [s[i], s[i + 1], s[i + 2], s[i + 3]];
    assert s[i..i + 2] == [s[i], s[i + 1]] && s[i + 2..i + 4] == [s[i + 2], s[i + 3]];
    ReadTwo(s, i);
    ReadTwo(s, i + 2);
    LeFour(s[i], s[i + 1], s[i + 2], s[i + 3]);
  }

  /** The bytes of a boot sector: the fields of `struct bpb`, the boot code and the signature. */
  datatype Fields = Fields(jmp: seq<Byte>, oemId: seq<Byte>, sectorSize: seq<Byte>, clusterSize: Byte,
                           resSectorCnt: seq<Byte>, fatCnt: Byte, rootDirentCnt: seq<Byte>, sectorCnt: seq<Byte>,
                           mediaDesc: Byte, fatSectors: seq<Byte>, trackSectors: seq<Byte>, headCnt: seq<Byte>,
                           hiddenSectorCnt: seq<Byte>, largeSectorCnt: seq<Byte>, code: seq<Byte>,
                           signature: seq<Byte>)

  predicate Sized(f: Fields) {
    && |f.jmp| == 3 && |f.oemId| == 8 && |f.sectorSize| == 2 && |f.resSectorCnt| == 2 && |f.rootDirentCnt| == 2
    && |f.sectorCnt| == 2 && |f.fatSectors| == 2 && |f.trackSectors| == 2 && |f.headCnt| == 2
    && |f.hiddenSectorCnt| == 4 && |f.largeSectorCnt| == 4 && |f.code| == 474 && |f.signature| == 2
  }

  /** The packed structure up to the number of root entries, and from the number of sectors on. */
  function Head(f: Fields): (s: seq<Byte>)
    requires Sized(f)
    ensures |s| == 19
  {
    f.jmp + f.oemId + f.sectorSize + [f.clusterSize] + f.resSectorCnt + [f.fatCnt] + f.rootDirentCnt
  }

  function Tail(f: Fields): (s: seq<Byte>)
    requires Sized(f)
    ensures |s| == 17
  {
    f.sectorCnt + [f.mediaDesc] + f.fatSectors + f.trackSectors + f.headCnt + f.hiddenSectorCnt + f.largeSectorCnt
  }

  /** A boot sector, field by field. */
  function BootSector(f: Fields): (s: seq<Byte>)
    requires Sized(f)
    ensures |s| == 512
  {
    Head(f) + Tail(f) + f.code + f.signature
  }

  lemma HeadFields(f: Fields)
    requires Sized(f)
    ensures var s := Head(f);
      && s[11..13] == f.sectorSize && s[13..14] == [f.clusterSize] && s[14..16] == f.resSectorCnt
      && s[16..17] == [f.fatCnt] && s[17..19] == f.rootDirentCnt
  {
  }

  lemma TailFields(f: Fields)
    requires Sized(f)
    ensures var s := Tail(f); s[0..2] == f.sectorCnt && s[3..5] == f.fatSectors && s[13..17] == f.largeSectorCnt
  {
  }

  /** A field of one part of a sector made of four. */
  lemma PartOfSector(head: seq<Byte>, tail: seq<Byte>, code: seq<Byte>, end: seq<Byte>, i: nat, n: nat)
    requires |head| == 19 && |tail| == 17 && |code| == 474 && |end| == 2
    ensures var s := head + tail + code + end;
      && (i + n <= 19 ==> s[i..i + n] == head[i..i + n])
      && (i + n <= 17 ==> s[19 + i..19 + i + n] == tail[i..i + n])
      && s[510..512] == end
  {
  }

  lemma FieldOf(f: Fields, i: nat, n: nat)
    requires Sized(f) && n <= 4
    ensures i + n <= 19 ==> BootSector(f)[i..i + n] == Head(f)[i..i + n]
    ensures i + n <= 17 ==> BootSector(f)[19 + i..19 + i + n] == Tail(f)[i..i + n]
    ensures BootSector(f)[510..512] == f.signature
  {
    PartOfSector(Head(f), Tail(f), f.code, f.signature, i, n);
  }

  lemma HeadBytes(f: Fields)
    requires Sized(f)
    ensures BootSector(f)[13] == f.clusterSize && BootSector(f)[16] == f.fatCnt
  {
    var s := BootSector(f);
    HeadFields(f);
    FieldOf(f, 13, 1);
    FieldOf(f, 16, 1);
    assert s[13] == s[13..14][0] && s[16] == s[16..17][0];
  }

  lemma HeadRead(f: Fields)
    requires Sized(f)
    ensures var s := BootSector(f);
      && U16(s, 11) == LeValue(f.sectorSize) && U16(s, 14) == LeValue(f.resSectorCnt)
      && U16(s, 17) == LeValue(f.rootDirentCnt)
  {
    var s := BootSector(f);
    HeadFields(f);
    FieldOf(f, 11, 2);
    FieldOf(f, 14, 2);
    FieldOf(f, 17, 2);
    ReadTwo(s, 11);
    ReadTwo(s, 14);
    ReadTwo(s, 17);
  }

  lemma TailRead(f: Fields)
    requires Sized(f)
    ensures var s := BootSector(f);
      && U16(s, 19) == LeValue(f.sectorCnt) && U16(s, 22) == LeValue(f.fatSectors)
      && U32(s, 32) == LeValue(f.largeSectorCnt) && U16(s, 510) == LeValue(f.signature)
  {
    var s := BootSector(f);
    TailFields(f);
    FieldOf(f, 0, 2);
    FieldOf(f, 3, 2);
    FieldOf(f, 13, 4);
    ReadTwo(s, 19);
    ReadTwo(s, 22);
    ReadFour(s, 32);
    ReadTwo(s, 510);
  }

  /** Reading a boot sector gives the little-endian values of the fields it was laid out from. */
  lemma ParseLaidOut(f: Fields)
    requires Sized(f)
    ensures ParseBpb(BootSector(f))
         == Bpb(LeValue(f.sectorSize), f.clusterSize as nat, LeValue(f.resSectorCnt), f.fatCnt as nat,
                LeValue(f.rootDirentCnt), LeValue(f.sectorCnt), LeValue(f.fatSectors), LeValue(f.largeSectorCnt))
    ensures U16(BootSector(f), 510) == LeValue(f.signature)
  {
    HeadBytes(f);
    HeadRead(f);
    TailRead(f);
  }

  lemma SignatureBytes(s: seq<Byte>)
    requires |s| == 2
    ensures LeValue(s) == 0xaa55 <==> s == [0x55, 0xaa]
  {
    assert s == [s[0], s[1]];
    LeTwo(s[0], s[1]);
  }

  /** With which boot sectors `fat_verify` divides by zero, field by field. */
  lemma DividesOnLaidOut(f: Fields)
    requires Sized(f)
    ensures Divides(ParseBpb(BootSector(f)), U16(BootSector(f), 510)) <==>
      && f.signature == [0x55, 0xaa] && LeValue(f.sectorSize) == 512 && LeValue(f.fatSectors) != 0
      && f.clusterSize == 0
  {
    ParseLaidOut(f);
    SignatureBytes(f.signature);
  }

  /**
   A `struct dirent_std`: eleven characters of name, the attributes,
     and twenty more bytes. The first character tells the
   end of the directory and deleted entries, the attributes tell long-name entries.
   */
  lemma KindLaidOut(name: seq<Byte>, attr: Byte, rest: seq<Byte>)
    requires |name| == 11 && |rest| == 20
    ensures KindOf(name + [attr] + rest)
         == if name[0] == 0 then EndMark
            else if name[0] == 0xe5 then Deleted
            else if attr == 0x0f then LongName
            else Standard
  {
    var e := name + [attr] + rest;
    assert e[0] == name[0] && e[11] == attr;
  }
}
