/**
 * `unpack_boot_img` over an image held as an immutable byte sequence:
 * decode the header, place the payloads, and read each present payload
 * with a seek and a read. The files the source writes become a map from
 * output file name to contents, and `boot_params.txt` its list of lines.
 */
module Extract {
  import opened Bytes
  import opened Wrappers
  import opened BootImage
  import opened Layout
  import Summary

  /** The payload files, named `kernel`, `ramdisk.cpio.gz` and `dtb` in the output directory. */
  datatype PayloadFile = KernelFile | RamdiskFile | SecondFile {
    function Name(): string
    {
      match this
      case KernelFile => "kernel"
      case RamdiskFile => "ramdisk.cpio.gz"
      case SecondFile => "dtb"
    }
  }

  /** The summary file, written beside the payload files. */
  const ParamsFileName: string := "boot_params.txt"

  /** The run writes each payload and the summary to a file of its own, so none overwrites another. */
  lemma FileNamesDistinct(f: PayloadFile, g: PayloadFile)
    ensures f != g ==> f.Name() != g.Name()
    ensures f.Name() != ParamsFileName
  {
  }

  /** What one extraction pass finds: the header, the three regions and the payloads present. */
  datatype Extraction = Extraction(
    header: Header,
    regions: Regions,
    kernel: Option<seq<byte>>,
    ramdisk: Option<seq<byte>>,
    second: Option<seq<byte>>)

  /** The payload files and the lines of `boot_params.txt` one run produces. */
  datatype Output = Output(files: map<PayloadFile, seq<byte>>, params: seq<string>)

  /**
   * `f.seek(offset); f.read(size)`, done only for a region of non-zero
   * size. The read stops at the end of the image, so a region that runs
   * past it yields only the bytes that exist.
   */
  function ReadRegion(image: seq<byte>, r: Region): (data: Option<seq<byte>>)
    ensures data.Some? <==> r.size > 0
    ensures data.Some? && r.End() <= |image| ==> data.value == image[r.offset..r.End()]
    ensures data.Some? && r.offset < |image| < r.End() ==> data.value == image[r.offset..]
    ensures data.Some? && |image| <= r.offset ==> data.value == []
  {
    if r.size > 0 then Some(Slice(image, r.offset, r.End())) else None
  }

  /** The extraction an image yields, or why it yields none. */
  function ExtractImage(image: seq<byte>): (r: Result<Extraction, UnpackError>)
    ensures r.Err? <==> DecodeHeader(image).Err? || DecodeHeader(image).value.pageSize == 0
    ensures DecodeHeader(image).Err? ==> r == Err(DecodeHeader(image).error)
    ensures DecodeHeader(image).Ok? && DecodeHeader(image).value.pageSize == 0 ==> r == Err(ZeroPageSize)
    ensures r.Ok? ==> r.value.header == DecodeHeader(image).value
    ensures r.Ok? ==> var h := r.value.header;
      r.value.regions == Locate(h.pageSize, h.kernelSize, h.ramdiskSize, h.secondSize)
    ensures r.Ok? ==> var h := r.value.header; var l := r.value.regions;
      l.kernel.offset == h.pageSize &&
      l.kernel.size == h.kernelSize && l.ramdisk.size == h.ramdiskSize && l.second.size == h.secondSize &&
      l.ramdisk.offset % h.pageSize == 0 && l.second.offset % h.pageSize == 0 &&
      l.kernel.End() <= l.ramdisk.offset && l.ramdisk.End() <= l.second.offset
    ensures r.Ok? ==>
      r.value.kernel == ReadRegion(image, r.value.regions.kernel) &&
      r.value.ramdisk == ReadRegion(image, r.value.regions.ramdisk) &&
      r.value.second == ReadRegion(image, r.value.regions.second)
  {
    match DecodeHeader(image)
    case Err(e) => Err(e)
    case Ok(h) =>
      if h.pageSize == 0 then Err(ZeroPageSize)
      else
        var l := Locate(h.pageSize, h.kernelSize, h.ramdiskSize, h.secondSize);
        Ok(Extraction(h, l, ReadRegion(image, l.kernel), ReadRegion(image, l.ramdisk), ReadRegion(image, l.second)))
  }

  /** The files after writing `file` with `data`, if there is any. */
  function Put(files: map<PayloadFile, seq<byte>>, file: PayloadFile, data: Option<seq<byte>>): map<PayloadFile, seq<byte>>
  {
    if data.Some? then files[file := data.value] else files
  }

  /** The payload files of an extraction: one per present payload, holding its bytes. */
  function PayloadFiles(x: Extraction): (files: map<PayloadFile, seq<byte>>)
    ensures KernelFile in files <==> x.kernel.Some?
    ensures RamdiskFile in files <==> x.ramdisk.Some?
    ensures SecondFile in files <==> x.second.Some?
    ensures x.kernel.Some? ==> files[KernelFile] == x.kernel.value
    ensures x.ramdisk.Some? ==> files[RamdiskFile] == x.ramdisk.value
    ensures x.second.Some? ==> files[SecondFile] == x.second.value
  {
    Put(Put(Put(map[], KernelFile, x.kernel), RamdiskFile, x.ramdisk), SecondFile, x.second)
  }

  /**
   * The three extraction steps: for each region of non-zero size, seek to
   * its offset, read its size in bytes and write them to its file.
   */
  method WritePayloads(image: seq<byte>, l: Regions) returns (files: map<PayloadFile, seq<byte>>)
    ensures files == Put(Put(Put(map[], KernelFile, ReadRegion(image, l.kernel)),
      RamdiskFile, ReadRegion(image, l.ramdisk)), SecondFile, ReadRegion(image, l.second))
  {
    files := map[];
    if l.kernel.size > 0 {
      files := files[KernelFile := Slice(image, l.kernel.offset, l.kernel.offset + l.kernel.size)];
    }
    if l.ramdisk.size > 0 {
      files := files[RamdiskFile := Slice(image, l.ramdisk.offset, l.ramdisk.offset + l.ramdisk.size)];
    }
    if l.second.size > 0 {
      files := files[SecondFile := Slice(image, l.second.offset, l.second.offset + l.second.size)];
    }
  }

  /**
   * The unpacker's run on one image. `decodeText` stands for the permissive
   * UTF-8 decoding of the command line. Nothing is produced unless the
   * magic, the header length and the page size are all acceptable; then a
   * payload file exists exactly for each region of non-zero size and holds
   * the bytes read for it.
   */
  method UnpackBootImage(image: seq<byte>, decodeText: seq<byte> -> string) returns (r: Result<Output, UnpackError>)
    ensures r.Err? <==> ExtractImage(image).Err?
    ensures r.Err? ==> r.error == ExtractImage(image).error
    ensures r.Ok? ==> var x := ExtractImage(image).value;
      r.value.files == PayloadFiles(x) &&
      r.value.params == Summary.ParamsLines(x.header, decodeText(x.header.cmdline))
  {
    var decoded := DecodeHeader(image);
    if decoded.Err? {
      return Err(decoded.error);
    }
    var h := decoded.value;
    if h.pageSize == 0 {
      return Err(ZeroPageSize);
    }
    var l := Locate(h.pageSize, h.kernelSize, h.ramdiskSize, h.secondSize);
    ghost var x := ExtractImage(image).value;
    assert x == Extraction(h, l, ReadRegion(image, l.kernel), ReadRegion(image, l.ramdisk), ReadRegion(image, l.second));
    var files := WritePayloads(image, l);
    var params := Summary.ParamsLines(h, decodeText(h.cmdline));
    return Ok(Output(files, params));
  }

  /** A payload of size zero is absent. */
  function Present(data: seq<byte>): Option<seq<byte>>
  {
    if |data| > 0 then Some(data) else None
  }

  /** The padding that brings `data` up to a whole number of pages. */
  ghost function PadToPage(data: seq<byte>, pageSize: nat): (s: seq<byte>)
    requires pageSize > 0
    ensures |s| == Align(|data|, pageSize)
  {
    data + Zeros(Align(|data|, pageSize) - |data|)
  }

  /** The header padded to one page. */
  ghost function HeaderPage(h: Header): (s: seq<byte>)
    requires Encodable(h) && h.pageSize >= HeaderSize
    ensures |s| == h.pageSize
  {
    EncodeHeader(h) + Zeros(h.pageSize - HeaderSize)
  }

  /**
   * An image as bootimg.h lays it out: the header padded to one page, then
   * kernel, ramdisk and second payload, each padded to whole pages.
   */
  ghost function Assemble(h: Header, kernel: seq<byte>, ramdisk: seq<byte>, second: seq<byte>): seq<byte>
    requires Encodable(h) && h.pageSize >= HeaderSize
    requires |kernel| == h.kernelSize && |ramdisk| == h.ramdiskSize && |second| == h.secondSize
  {
    HeaderPage(h) + (PadToPage(kernel, h.pageSize) + (PadToPage(ramdisk, h.pageSize) + PadToPage(second, h.pageSize)))
  }

  /** Unpacking an assembled image gives back its header and exactly the payloads put in. */
  lemma ExtractAssembled(h: Header, kernel: seq<byte>, ramdisk: seq<byte>, second: seq<byte>)
    requires Encodable(h) && h.pageSize >= HeaderSize
    requires |kernel| == h.kernelSize && |ramdisk| == h.ramdiskSize && |second| == h.secondSize
    ensures var x := ExtractImage(Assemble(h, kernel, ramdisk, second));
      x.Ok? && x.value.header == h &&
      x.value.kernel == Present(kernel) && x.value.ramdisk == Present(ramdisk) && x.value.second == Present(second)
  {
    var p := h.pageSize;
    var image := Assemble(h, kernel, ramdisk, second);
    var pre := HeaderPage(h);
    var k := PadToPage(kernel, p);
    var rd := PadToPage(ramdisk, p);
    var sc := PadToPage(second, p);
    AssembledHeader(h, k + (rd + sc));
    var l := Locate(p, h.kernelSize, h.ramdiskSize, h.secondSize);
    LocateIsCumulativeAlign(p, h.kernelSize, h.ramdiskSize, h.secondSize);
    ExtractDecoded(image, h);

    assert |pre| == p && |k| == Align(|kernel|, p) && |rd| == Align(|ramdisk|, p);
    assert l.kernel == Region(|pre|, |kernel|);
    assert l.ramdisk == Region(|pre| + |k|, |ramdisk|);
    assert l.second == Region(|pre| + |k| + |rd|, |second|);
    ReadKernelSlot(pre, kernel, p, rd + sc);
    ReadRamdiskSlot(pre, k, ramdisk, p, sc);
    ReadSecondSlot(pre, k, rd, second, p);
  }

  lemma ReadKernelSlot(pre: seq<byte>, data: seq<byte>, p: nat, after: seq<byte>)
    requires p > 0
    ensures ReadRegion(pre + (PadToPage(data, p) + after), Region(|pre|, |data|)) == Present(data)
  {
    DropPrefix(pre, PadToPage(data, p) + after, 0, |data|);
    ReadPadded(data, p, after);
  }

  lemma ReadRamdiskSlot(pre: seq<byte>, k: seq<byte>, data: seq<byte>, p: nat, after: seq<byte>)
    requires p > 0
    ensures ReadRegion(pre + (k + (PadToPage(data, p) + after)), Region(|pre| + |k|, |data|)) == Present(data)
  {
    DropPrefix(pre, k + (PadToPage(data, p) + after), |k|, |data|);
    ReadKernelSlot(k, data, p, after);
  }

  lemma ReadSecondSlot(pre: seq<byte>, k: seq<byte>, rd: seq<byte>, data: seq<byte>, p: nat)
    requires p > 0
    ensures ReadRegion(pre + (k + (rd + PadToPage(data, p))), Region(|pre| + |k| + |rd|, |data|)) == Present(data)
  {
    DropPrefix(pre, k + (rd + PadToPage(data, p)), |k| + |rd|, |data|);
    DropPrefix(k, rd + PadToPage(data, p), |rd|, |data|);
    DropPrefix(rd, PadToPage(data, p), 0, |data|);
    ReadPadded(data, p, []);
  }

  /** The header of an assembled image is the one encoded at its front. */
  lemma AssembledHeader(h: Header, rest: seq<byte>)
    requires Encodable(h) && h.pageSize >= HeaderSize
    ensures DecodeHeader(HeaderPage(h) + rest) == Ok(h)
  {
    var head := EncodeHeader(h);
    var image := HeaderPage(h) + rest;
    assert image == head + (Zeros(h.pageSize - HeaderSize) + rest);
    assert image[..HeaderSize] == head;
    DecodeHeaderPrefix(image, head);
    DecodeEncodeHeader(h);
  }

  /** Once the header decodes with a non-zero page size, the extraction reads the located regions. */
  lemma ExtractDecoded(image: seq<byte>, h: Header)
    requires DecodeHeader(image) == Ok(h) && h.pageSize > 0
    ensures var l := Locate(h.pageSize, h.kernelSize, h.ramdiskSize, h.secondSize);
      ExtractImage(image) ==
        Ok(Extraction(h, l, ReadRegion(image, l.kernel), ReadRegion(image, l.ramdisk), ReadRegion(image, l.second)))
  {
  }

  /** Reading past a prefix of the image is reading the rest at a smaller offset. */
  lemma DropPrefix(x: seq<byte>, y: seq<byte>, offset: nat, size: nat)
    ensures ReadRegion(x + y, Region(|x| + offset, size)) == ReadRegion(y, Region(offset, size))
  {
    if size > 0 {
      assert Slice(x + y, |x| + offset, |x| + offset + size) == Slice(y, offset, offset + size);
    }
  }

  /** A payload padded to whole pages is read back whole from the front. */
  lemma ReadPadded(data: seq<byte>, p: nat, after: seq<byte>)
    requires p > 0
    ensures ReadRegion(PadToPage(data, p) + after, Region(0, |data|)) == Present(data)
    ensures after == [] ==> ReadRegion(PadToPage(data, p), Region(0, |data|)) == Present(data)
  {
    if |data| > 0 {
      assert (PadToPage(data, p) + after)[..|data|] == data;
      assert PadToPage(data, p)[..|data|] == data;
    }
  }

  /**
   * With a 2048-byte page, a 5000-byte kernel, a 100-byte ramdisk and no
   * second payload, the kernel is read at 2048, the ramdisk at 8192, and no
   * `dtb` file is written.
   */
  lemma UnpackExample(h: Header, kernel: seq<byte>, ramdisk: seq<byte>)
    requires Encodable(h) && h.pageSize == 2048 && h.secondSize == 0
    requires |kernel| == h.kernelSize == 5000 && |ramdisk| == h.ramdiskSize == 100
    ensures var x := ExtractImage(Assemble(h, kernel, ramdisk, []));
      x.Ok? && x.value.regions.kernel.offset == 2048 && x.value.regions.ramdisk.offset == 8192 &&
      x.value.kernel == Some(kernel) && x.value.ramdisk == Some(ramdisk) && x.value.second == None
  {
    ExtractAssembled(h, kernel, ramdisk, []);
    LocateExample();
  }

  /** A wrong magic, including an image shorter than 8 bytes, produces nothing. */
  lemma BadMagicProducesNothing(image: seq<byte>)
    requires !HasMagic(image)
    ensures ExtractImage(image) == Err(BadMagic(image[..Min(|image|, 8)]))
  {
  }
}
