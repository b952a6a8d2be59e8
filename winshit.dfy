/**
 * The window inventory and icon extraction of src/winshit/mod.rs.
 *
 * Every Win32 call is replaced by its result, carried as data: a
 * WindowDescriptor holds what GetWindowLongW, GetWindowTextW and
 * GetClassNameW report for one top-level window, and an IconSource holds
 * what the four icon queries, GetIconInfo, CreateDIBSection and GetDIBits
 * produce for it.
 */
module WinShit {
  import opened Wrappers

  newtype u8 = x: int | 0 <= x < 0x100
  newtype u32 = x: int | 0 <= x < 0x1_0000_0000

  /** Opaque window and icon handles; the icon handle 0 is the null handle. */
  type Hwnd = int
  type Hicon = int

  const WS_VISIBLE: bv32 := 0x1000_0000
  const WS_EX_TOOLWINDOW: bv32 := 0x0000_0080
  /** The modern shell's pseudo-window class, never listed. */
  const CORE_WINDOW_CLASS: string := "Windows.UI.Core.CoreWindow"
  /** Sizes, in UTF-16 units, of the buffers the title and the class name are read into. */
  const TITLE_BUFFER_LEN: nat := 1024
  const CLASS_BUFFER_LEN: nat := 256
  /** Side of the placeholder icon used when extraction fails. */
  const PLACEHOLDER_SIDE: nat := 32
  const HOTKEY_ID: int := 1

  /** The (r, g, b, a) arguments of Color32::from_rgba_unmultiplied. */
  datatype Rgba = Rgba(r: u8, g: u8, b: u8, a: u8)

  const TRANSPARENT: Rgba := Rgba(0, 0, 0, 0)

  /** A decoded icon: size is [width, height]. */
  datatype ColorImage = ColorImage(size: (nat, nat), pixels: seq<Rgba>)

  datatype WindowInfo = WindowInfo(
    handle: Hwnd,
    title: string,
    icon: Option<ColorImage>,
    iconSize: Option<(nat, nat)>)

  datatype IconInfo = IconInfo(xHotspot: u32, yHotspot: u32)

  /**
   * What the platform answers, for one window, to the calls of
   * get_window_icon_data:
   *  - the four icon candidates (WM_GETICON big, GCLP_HICON,
   *    WM_GETICON small, GCLP_HICONSM), 0 when the query gives none;
   *  - GetIconInfo per icon handle (an absent handle means the call fails);
   *  - whether CreateDIBSection and GetDIBits succeed;
   *  - the content of the DIB section once GetDIBits has filled it, byte by byte.
   */
  datatype IconSource = IconSource(
    bigFromMessage: Hicon,
    bigFromClass: Hicon,
    smallFromMessage: Hicon,
    smallFromClass: Hicon,
    iconInfo: map<Hicon, IconInfo>,
    dibSectionCreated: bool,
    bitsRead: bool,
    colorBits: nat -> u8)

  /** One top-level window as the platform reports it to enum_window_proc. */
  datatype WindowDescriptor = WindowDescriptor(
    handle: Hwnd,
    style: bv32,
    exStyle: bv32,
    text: string,
    className: string,
    icon: IconSource)

  datatype IconError = NoIcon | CreateDIBSectionFailed | GetDIBitsFailed | GetIconInfoFailed

  // ---------------------------------------------------------------------
  // Reading the title and the class name
  // ---------------------------------------------------------------------

  /** GetWindowTextW / GetClassNameW into a buffer of bufferLen units copy at
      most bufferLen - 1 units (the last one is the terminator). */
  function ReadText(text: string, bufferLen: nat): (r: string)
    requires bufferLen > 1
    ensures |r| < bufferLen
    ensures |r| <= |text| && r == text[..|r|]
    ensures r == [] <==> text == []
    ensures |text| < bufferLen ==> r == text
    ensures |text| >= bufferLen ==> |r| == bufferLen - 1
  {
    if |text| < bufferLen then text else text[..bufferLen - 1]
  }

  function Title(w: WindowDescriptor): string
  {
    ReadText(w.text, TITLE_BUFFER_LEN)
  }

  function ClassName(w: WindowDescriptor): string
  {
    ReadText(w.className, CLASS_BUFFER_LEN)
  }

  /** The style test of enum_window_proc: visible and not a tool window. */
  predicate PassesStyleCheck(w: WindowDescriptor)
  {
    w.style & WS_VISIBLE != 0 && w.exStyle & WS_EX_TOOLWINDOW == 0
  }

  /** A window enum_window_proc records. The title test is is_empty, with no trimming. */
  predicate Listed(w: WindowDescriptor)
  {
    PassesStyleCheck(w) && Title(w) != [] && ClassName(w) != CORE_WINDOW_CLASS
  }

  // ---------------------------------------------------------------------
  // Icon extraction
  // ---------------------------------------------------------------------

  /** The icon candidates in the order get_window_icon_data tries them. */
  function IconCandidates(src: IconSource): seq<Hicon>
  {
    [src.bigFromMessage, src.bigFromClass, src.smallFromMessage, src.smallFromClass]
  }

  /** The first non-null handle of a candidate list, or 0 when all are null. */
  function FirstNonZero(candidates: seq<Hicon>): (h: Hicon)
    ensures h == 0 <==> forall i :: 0 <= i < |candidates| ==> candidates[i] == 0
    ensures h != 0 ==>
      exists i :: 0 <= i < |candidates| && candidates[i] == h &&
        forall j :: 0 <= j < i ==> candidates[j] == 0
  {
    if candidates == [] then 0
    else if candidates[0] != 0 then candidates[0]
    else
      var h := FirstNonZero(candidates[1..]);
      assert forall i :: 1 <= i < |candidates| ==> candidates[i] == candidates[1..][i - 1];
      h
  }

  function ResolvedIcon(src: IconSource): Hicon
  {
    FirstNonZero(IconCandidates(src))
  }

  /** `xHotspot * 2` computed in u32: it wraps around (release build). */
  function Double32(x: u32): (r: u32)
    ensures x < 0x8000_0000 ==> r as int == 2 * x as int
    ensures x >= 0x8000_0000 ==> r as int == 2 * x as int - 0x1_0000_0000
  {
    ((2 * x as int) % 0x1_0000_0000) as u32
  }

  /** Icon geometry: twice the hotspot in each direction. */
  function HotspotSize(info: IconInfo): (nat, nat)
  {
    (Double32(info.xHotspot) as nat, Double32(info.yHotspot) as nat)
  }

  /** The bytes copied out of the DIB section: width * height * 4 of them. */
  function ReadBack(src: IconSource, size: (nat, nat)): (data: seq<u8>)
    ensures |data| == size.0 * size.1 * 4
    ensures forall k :: 0 <= k < |data| ==> data[k] == src.colorBits(k)
  {
    seq(size.0 * size.1 * 4, k requires 0 <= k => src.colorBits(k))
  }

  /** The outcome of get_window_icon_data: raw BGRA bytes and their size, or
      the error of the first platform call that fails. */
  function IconOutcome(src: IconSource): (r: Result<(seq<u8>, (nat, nat)), IconError>)
    ensures r.Ok? ==> |r.value.0| == r.value.1.0 * r.value.1.1 * 4
  {
    var hicon := ResolvedIcon(src);
    if hicon == 0 then Err(NoIcon)
    else if hicon !in src.iconInfo then Err(GetIconInfoFailed)
    else
      var size := HotspotSize(src.iconInfo[hicon]);
      if !src.dibSectionCreated then Err(CreateDIBSectionFailed)
      else if !src.bitsRead then Err(GetDIBitsFailed)
      else Ok((ReadBack(src, size), size))
  }

  /**
   * get_window_icon_data: the handle is reassigned step by step through the
   * four candidates, then each platform call either fails with its own error
   * or hands on to the next.
   */
  method GetWindowIconData(src: IconSource) returns (r: Result<(seq<u8>, (nat, nat)), IconError>)
    ensures r == IconOutcome(src)
    ensures r == Err(NoIcon) <==> forall i :: 0 <= i < 4 ==> IconCandidates(src)[i] == 0
    ensures r == Err(GetIconInfoFailed) <==>
      ResolvedIcon(src) != 0 && ResolvedIcon(src) !in src.iconInfo
    ensures r == Err(CreateDIBSectionFailed) <==>
      ResolvedIcon(src) != 0 && ResolvedIcon(src) in src.iconInfo && !src.dibSectionCreated
    ensures r == Err(GetDIBitsFailed) <==>
      ResolvedIcon(src) != 0 && ResolvedIcon(src) in src.iconInfo && src.dibSectionCreated &&
      !src.bitsRead
    ensures r.Ok? ==>
      var info := src.iconInfo[ResolvedIcon(src)];
      && r.value.1 == HotspotSize(info)
      && (info.xHotspot < 0x8000_0000 ==> r.value.1.0 == 2 * info.xHotspot as nat)
      && (info.yHotspot < 0x8000_0000 ==> r.value.1.1 == 2 * info.yHotspot as nat)
      && |r.value.0| == r.value.1.0 * r.value.1.1 * 4
      && forall k :: 0 <= k < |r.value.0| ==> r.value.0[k] == src.colorBits(k)
  {
    FirstNonZeroOfFour(IconCandidates(src));
    var hicon := src.bigFromMessage;
    if hicon == 0 {
      hicon := src.bigFromClass;
    }
    if hicon == 0 {
      hicon := src.smallFromMessage;
    }
    if hicon == 0 {
      hicon := src.smallFromClass;
    }
    assert hicon == ResolvedIcon(src);
    if hicon == 0 {
      return Err(NoIcon);
    }
    if hicon !in src.iconInfo {
      return Err(GetIconInfoFailed);
    }
    var info := src.iconInfo[hicon];
    var iconWidth := Double32(info.xHotspot) as nat;
    var iconHeight := Double32(info.yHotspot) as nat;
    if !src.dibSectionCreated {
      return Err(CreateDIBSectionFailed);
    }
    if !src.bitsRead {
      return Err(GetDIBitsFailed);
    }
    var iconData: seq<u8> := [];
    iconData := iconData + ReadBack(src, (iconWidth, iconHeight));
    assert iconData == ReadBack(src, HotspotSize(info));
    return Ok((iconData, (iconWidth, iconHeight)));
  }

  /** FirstNonZero on a four-element list, unrolled. */
  lemma FirstNonZeroOfFour(c: seq<Hicon>)
    requires |c| == 4
    ensures FirstNonZero(c) ==
      if c[0] != 0 then c[0] else if c[1] != 0 then c[1] else if c[2] != 0 then c[2] else c[3]
  {
  }

  // ---------------------------------------------------------------------
  // BGRA to RGBA conversion
  // ---------------------------------------------------------------------

  /** Pixel k of a BGRA buffer, as (r, g, b, a). */
  function PixelAt(data: seq<u8>, k: nat): Rgba
    requires 4 * k + 3 < |data|
  {
    Rgba(data[4 * k + 2], data[4 * k + 1], data[4 * k], data[4 * k + 3])
  }

  /** The pixels convert_to_color_image builds from a BGRA buffer. */
  function DecodeBgra(data: seq<u8>): (pixels: seq<Rgba>)
    requires |data| % 4 == 0
    ensures |pixels| == |data| / 4
  {
    seq(|data| / 4, k requires 0 <= k < |data| / 4 => PixelAt(data, k))
  }

  /** The inverse: the BGRA bytes of a pixel sequence. */
  function EncodeBgra(pixels: seq<Rgba>): (data: seq<u8>)
    ensures |data| == 4 * |pixels|
  {
    if pixels == [] then []
    else [pixels[0].b, pixels[0].g, pixels[0].r, pixels[0].a] + EncodeBgra(pixels[1..])
  }

  lemma {:induction false} EncodeBgraAt(pixels: seq<Rgba>, k: nat)
    requires k < |pixels|
    ensures EncodeBgra(pixels)[4 * k] == pixels[k].b
    ensures EncodeBgra(pixels)[4 * k + 1] == pixels[k].g
    ensures EncodeBgra(pixels)[4 * k + 2] == pixels[k].r
    ensures EncodeBgra(pixels)[4 * k + 3] == pixels[k].a
  {
    if k > 0 {
      EncodeBgraAt(pixels[1..], k - 1);
    }
  }

  /** Decoding what was encoded gives the pixels back. */
  lemma DecodeEncode(pixels: seq<Rgba>)
    ensures DecodeBgra(EncodeBgra(pixels)) == pixels
  {
    forall k | 0 <= k < |pixels| {
      EncodeBgraAt(pixels, k);
    }
  }

  /** Encoding what was decoded gives the bytes back: no byte is lost or moved. */
  lemma EncodeDecode(data: seq<u8>)
    requires |data| % 4 == 0
    ensures EncodeBgra(DecodeBgra(data)) == data
  {
    var p := DecodeBgra(data);
    var e := EncodeBgra(p);
    forall i | 0 <= i < |data| ensures e[i] == data[i] {
      EncodeBgraAt(p, i / 4);
      assert p[i / 4] == PixelAt(data, i / 4);
    }
  }

  /** A sample pixel: bytes [10, 20, 30, 40] give (30, 20, 10, 40). */
  lemma DecodeSample()
    ensures DecodeBgra([10, 20, 30, 40]) == [Rgba(30, 20, 10, 40)]
  {
  }

  /** A buffer of width * height * 4 bytes decodes to width * height pixels. */
  lemma DecodedPixelCount(data: seq<u8>, width: nat, height: nat)
    requires |data| == width * height * 4
    ensures |DecodeBgra(data)| == width * height
  {
  }

  /**
   * convert_to_color_image: a loop over the byte offsets 0, 4, 8, ...
   * pushing one pixel per group. Indexing past the end panics unless the
   * length is a multiple of 4, hence the requires.
   */
  method ConvertToColorImage(data: seq<u8>, width: nat, height: nat) returns (image: ColorImage)
    requires |data| % 4 == 0
    ensures image.size == (width, height)
    ensures |image.pixels| == |data| / 4
    ensures forall k :: 0 <= k < |image.pixels| ==>
      image.pixels[k] == Rgba(data[4 * k + 2], data[4 * k + 1], data[4 * k], data[4 * k + 3])
    ensures image.pixels == DecodeBgra(data)
  {
    var pixels: seq<Rgba> := [];
    var i := 0;
    while i < |data|
      invariant 0 <= i <= |data| && i % 4 == 0
      invariant |pixels| == i / 4
      invariant forall k :: 0 <= k < |pixels| ==> pixels[k] == PixelAt(data, k)
    {
      var b := data[i];
      var g := data[i + 1];
      var r := data[i + 2];
      var a := data[i + 3];
      pixels := pixels + [Rgba(r, g, b, a)];
      i := i + 4;
    }
    image := ColorImage((width, height), pixels);
  }

  // ---------------------------------------------------------------------
  // Window records
  // ---------------------------------------------------------------------

  /** The 32x32 transparent icon substituted when extraction fails. */
  function Placeholder(): (img: ColorImage)
    ensures img.size == (PLACEHOLDER_SIDE, PLACEHOLDER_SIDE)
    ensures |img.pixels| == 1024
    ensures forall k :: 0 <= k < |img.pixels| ==> img.pixels[k] == TRANSPARENT
  {
    ColorImage((PLACEHOLDER_SIDE, PLACEHOLDER_SIDE), seq(PLACEHOLDER_SIDE * PLACEHOLDER_SIDE, _ => TRANSPARENT))
  }

  /** A decoded icon whose pixel count matches its size. */
  predicate WellFormed(img: ColorImage)
  {
    |img.pixels| == img.size.0 * img.size.1
  }

  /** The icon and size a record gets: the decoded icon, or the placeholder. */
  function RecordIcon(src: IconSource): (r: (ColorImage, (nat, nat)))
    ensures WellFormed(r.0) && r.0.size == r.1
    ensures IconOutcome(src).Err? ==> r == (Placeholder(), (32, 32))
    ensures IconOutcome(src).Ok? ==>
      r == (ColorImage(IconOutcome(src).value.1, DecodeBgra(IconOutcome(src).value.0)), IconOutcome(src).value.1)
  {
    match IconOutcome(src)
    case Ok((data, size)) => (ColorImage(size, DecodeBgra(data)), size)
    case Err(_) => (Placeholder(), (PLACEHOLDER_SIDE, PLACEHOLDER_SIDE))
  }

  /** The record enum_window_proc pushes for a listed window. */
  function Record(w: WindowDescriptor): WindowInfo
  {
    var (icon, size) := RecordIcon(w.icon);
    WindowInfo(w.handle, Title(w), Some(icon), Some(size))
  }

  /** What one callback adds to the list: one record or nothing. */
  function RecordsFor(w: WindowDescriptor): (r: seq<WindowInfo>)
    ensures |r| <= 1
    ensures |r| == 1 <==>
      && w.style & WS_VISIBLE != 0
      && w.exStyle & WS_EX_TOOLWINDOW == 0
      && Title(w) != []
      && ClassName(w) != CORE_WINDOW_CLASS
    ensures |r| == 1 ==> r[0].handle == w.handle && r[0].title == Title(w) && r[0].title != []
    ensures |r| == 1 && IconOutcome(w.icon).Err? ==>
      r[0].icon == Some(Placeholder()) && r[0].iconSize == Some((32, 32))
  {
    if Listed(w) then [Record(w)] else []
  }

  /** The title test does not trim: a visible window titled with a single
      space is recorded under that title. */
  lemma WhitespaceTitleKept(w: WindowDescriptor)
    requires PassesStyleCheck(w) && w.text == " " && ClassName(w) != CORE_WINDOW_CLASS
    ensures |RecordsFor(w)| == 1 && RecordsFor(w)[0].title == " "
  {
  }

  /** The list a caller-owned vector accumulates while EnumWindows drives the callback. */
  class WindowList {
    var items: seq<WindowInfo>

    constructor ()
      ensures items == []
    {
      items := [];
    }
  }

  /**
   * enum_window_proc: filter one window and push its record at the end of the
   * caller's list. It always answers TRUE, so enumeration continues.
   */
  method EnumWindowProc(w: WindowDescriptor, windows: WindowList) returns (continueEnumeration: bool)
    modifies windows
    ensures continueEnumeration
    ensures windows.items == old(windows.items) + RecordsFor(w)
  {
    if w.style & WS_VISIBLE != 0 && w.exStyle & WS_EX_TOOLWINDOW == 0 {
      var title := ReadText(w.text, TITLE_BUFFER_LEN);
      var className := ReadText(w.className, CLASS_BUFFER_LEN);
      if title == [] || className == CORE_WINDOW_CLASS {
        return true;
      }
      var outcome := GetWindowIconData(w.icon);
      var icon: ColorImage;
      var iconSize: (nat, nat);
      match outcome {
        case Ok((data, size)) =>
          icon := ConvertToColorImage(data, size.0, size.1);
          iconSize := size;
        case Err(_) =>
          icon := ColorImage((32, 32), seq(32 * 32, _ => TRANSPARENT));
          iconSize := (32, 32);
      }
      windows.items := windows.items + [WindowInfo(w.handle, title, Some(icon), Some(iconSize))];
    }
    return true;
  }

  // ---------------------------------------------------------------------
  // The inventory EnumWindows builds
  // ---------------------------------------------------------------------

  /** The records of a run of windows, in enumeration order. */
  function Inventory(desktop: seq<WindowDescriptor>): (r: seq<WindowInfo>)
    ensures |r| <= |desktop|
  {
    if desktop == [] then [] else Inventory(desktop[..|desktop| - 1]) + RecordsFor(desktop[|desktop| - 1])
  }

  /** Enumerating two runs one after the other appends their inventories. */
  lemma {:induction false} InventoryAppend(a: seq<WindowDescriptor>, b: seq<WindowDescriptor>)
    ensures Inventory(a + b) == Inventory(a) + Inventory(b)
    decreases |b|
  {
    if b == [] {
      assert a + b == a;
    } else {
      var b' := b[..|b| - 1];
      assert (a + b)[..|a + b| - 1] == a + b';
      assert (a + b)[|a + b| - 1] == b[|b| - 1];
      InventoryAppend(a, b');
    }
  }

  lemma InventoryUnit(w: WindowDescriptor)
    ensures Inventory([w]) == RecordsFor(w)
  {
  }

  /** rec is the record of a listed window of desktop. */
  predicate RecordOfListed(desktop: seq<WindowDescriptor>, rec: WindowInfo)
  {
    exists i :: 0 <= i < |desktop| && Listed(desktop[i]) && rec == Record(desktop[i])
  }

  /** The record at index r of an inventory comes from a listed window. */
  lemma {:induction false} RecordFromListed(desktop: seq<WindowDescriptor>, r: int)
    requires 0 <= r < |Inventory(desktop)|
    ensures RecordOfListed(desktop, Inventory(desktop)[r])
    decreases |desktop|
  {
    assert desktop != [];
    var n := |desktop| - 1;
    var init := desktop[..n];
    assert Inventory(desktop) == Inventory(init) + RecordsFor(desktop[n]);
    if r < |Inventory(init)| {
      RecordFromListed(init, r);
      var i :| 0 <= i < |init| && Listed(init[i]) && Inventory(init)[r] == Record(init[i]);
      assert desktop[i] == init[i];
    } else {
      assert Listed(desktop[n]) && Inventory(desktop)[r] == Record(desktop[n]);
    }
  }

  /** An inventory is at most as long as the enumeration, and every record
      comes from a listed window of it. */
  lemma InventoryRecordsListed(desktop: seq<WindowDescriptor>)
    ensures |Inventory(desktop)| <= |desktop|
    ensures forall r :: 0 <= r < |Inventory(desktop)| ==> RecordOfListed(desktop, Inventory(desktop)[r])
  {
    forall r | 0 <= r < |Inventory(desktop)| {
      RecordFromListed(desktop, r);
    }
  }

  /** Every listed window yields its record, placed after the records of the
      windows enumerated before it. */
  lemma ListedWindowRecorded(desktop: seq<WindowDescriptor>, i: nat)
    requires i < |desktop| && Listed(desktop[i])
    ensures |Inventory(desktop[..i])| < |Inventory(desktop)|
    ensures Inventory(desktop)[|Inventory(desktop[..i])|] == Record(desktop[i])
  {
    assert desktop == desktop[..i] + [desktop[i]] + desktop[i + 1..];
    InventoryAppend(desktop[..i] + [desktop[i]], desktop[i + 1..]);
    InventoryAppend(desktop[..i], [desktop[i]]);
    InventoryUnit(desktop[i]);
  }

  /** Every record has a non-empty title and a well-formed icon of the size it reports. */
  lemma {:induction false} InventoryWellFormed(desktop: seq<WindowDescriptor>)
    ensures forall r :: 0 <= r < |Inventory(desktop)| ==>
      var rec := Inventory(desktop)[r];
      && rec.title != []
      && rec.icon.Some? && rec.iconSize.Some?
      && WellFormed(rec.icon.value) && rec.icon.value.size == rec.iconSize.value
  {
    if desktop != [] {
      InventoryWellFormed(desktop[..|desktop| - 1]);
    }
  }

  /** Distinct window handles give an inventory with distinct handles. */
  lemma {:induction false} InventoryHandlesDistinct(desktop: seq<WindowDescriptor>)
    requires forall i, j :: 0 <= i < j < |desktop| ==> desktop[i].handle != desktop[j].handle
    ensures forall r, s :: 0 <= r < s < |Inventory(desktop)| ==>
      Inventory(desktop)[r].handle != Inventory(desktop)[s].handle
  {
    if desktop != [] {
      var n := |desktop| - 1;
      var init := desktop[..n];
      InventoryHandlesDistinct(init);
      InventoryRecordsListed(init);
      var inv := Inventory(desktop);
      forall r, s | 0 <= r < s < |inv| ensures inv[r].handle != inv[s].handle {
        if s >= |Inventory(init)| {
          var i :| 0 <= i < |init| && Listed(init[i]) && Inventory(init)[r] == Record(init[i]);
          assert inv[s].handle == desktop[n].handle;
          assert init[i] == desktop[i];
        }
      }
    }
  }

  /**
   * EnumWindows over the platform's windows, with enum_window_proc appending
   * to a fresh list: the snapshot create_frame takes.
   */
  method EnumerateWindows(desktop: seq<WindowDescriptor>) returns (windows: seq<WindowInfo>)
    ensures windows == Inventory(desktop)
  {
    var list := new WindowList();
    var i := 0;
    while i < |desktop|
      invariant 0 <= i <= |desktop|
      invariant list.items == Inventory(desktop[..i])
    {
      var _ := EnumWindowProc(desktop[i], list);
      assert desktop[..i + 1] == desktop[..i] + [desktop[i]];
      InventoryAppend(desktop[..i], [desktop[i]]);
      InventoryUnit(desktop[i]);
      i := i + 1;
    }
    assert desktop[..i] == desktop;
    windows := list.items;
  }

  // ---------------------------------------------------------------------
  // Focusing a window
  // ---------------------------------------------------------------------

  datatype FocusCall =
    | IsIconic(h: Hwnd)
    | ShowWindowNormal(h: Hwnd)
    | LogShowWindowError
    | SwitchToThisWindow(h: Hwnd, altTab: bool)

  /** The platform calls focus_window makes, given whether the window is
      minimised and the BOOL ShowWindow returns (the code logs an error when
      it is FALSE). */
  function FocusWindow(h: Hwnd, iconic: bool, showReturnedTrue: bool): (calls: seq<FocusCall>)
    ensures |calls| >= 2 && calls[0] == IsIconic(h)
    ensures calls[|calls| - 1] == SwitchToThisWindow(h, true)
    ensures ShowWindowNormal(h) in calls <==> iconic
    ensures LogShowWindowError in calls <==> iconic && !showReturnedTrue
    ensures forall i :: 0 <= i < |calls| - 1 ==> !calls[i].SwitchToThisWindow?
  {
    [IsIconic(h)]
    + (if iconic then [ShowWindowNormal(h)] + (if showReturnedTrue then [] else [LogShowWindowError]) else [])
    + [SwitchToThisWindow(h, true)]
  }

  // ---------------------------------------------------------------------
  // The icon dump's file name
  // ---------------------------------------------------------------------

  /** The characters of a name the sanitiser keeps; `isAlphanumeric` stands
      for Rust's char::is_alphanumeric. */
  function KeptChars(name: string, isAlphanumeric: char -> bool): (r: string)
    ensures |r| <= |name|
    ensures forall i :: 0 <= i < |r| ==> isAlphanumeric(r[i]) || r[i] == ' '
  {
    if name == [] then []
    else
      (if isAlphanumeric(name[0]) || name[0] == ' ' then [name[0]] else [])
      + KeptChars(name[1..], isAlphanumeric)
  }

  /** The file name _save_icon_to_bin writes to. */
  function SanitizedFileName(name: string, isAlphanumeric: char -> bool): (r: string)
    ensures |r| >= 9 && r[|r| - 9..] == "_icon.bin"
    ensures r[..|r| - 9] == KeptChars(name, isAlphanumeric)
  {
    KeptChars(name, isAlphanumeric) + "_icon.bin"
  }

  /** A character is kept exactly when it is alphanumeric or a space. */
  lemma {:induction false} KeptCharsMembership(name: string, isAlphanumeric: char -> bool, c: char)
    ensures c in KeptChars(name, isAlphanumeric) <==> c in name && (isAlphanumeric(c) || c == ' ')
  {
    if name != [] {
      KeptCharsMembership(name[1..], isAlphanumeric, c);
      assert name == [name[0]] + name[1..];
    }
  }

  /** Kept characters stay in their order: the kept string is a subsequence. */
  lemma {:induction false} KeptCharsAppend(a: string, b: string, isAlphanumeric: char -> bool)
    ensures KeptChars(a + b, isAlphanumeric) == KeptChars(a, isAlphanumeric) + KeptChars(b, isAlphanumeric)
  {
    if a == [] {
      assert a + b == b;
    } else {
      assert (a + b)[1..] == a[1..] + b;
      KeptCharsAppend(a[1..], b, isAlphanumeric);
    }
  }

  /** Sanitising a sanitised name changes nothing. */
  lemma {:induction false} KeptCharsIdempotent(name: string, isAlphanumeric: char -> bool)
    ensures KeptChars(KeptChars(name, isAlphanumeric), isAlphanumeric) == KeptChars(name, isAlphanumeric)
  {
    if name != [] {
      var head := if isAlphanumeric(name[0]) || name[0] == ' ' then [name[0]] else [];
      KeptCharsAppend(head, KeptChars(name[1..], isAlphanumeric), isAlphanumeric);
      KeptCharsIdempotent(name[1..], isAlphanumeric);
      if head != [] {
        assert KeptChars(head, isAlphanumeric) == head by {
          assert head[1..] == [];
        }
      }
    }
  }
}
