/** Image helpers of App.cpp: depth-format and memory-type search, the stencil
    test, the two-case layout-transition table, the mip-level count and the
    barrier/blit plan of `generateMipmaps`, with a small state machine over the
    layout of each mip level that gives the recorded commands their meaning. */
module Images {
  import opened Vulkan

  // ---------------------------------------------------------------------------
  // hasStencilComponent, findSupportedFormat, findDepthFormat

  /** `hasStencilComponent` (App.cpp:595-597). */
  predicate HasStencilComponent(format: Format) {
    format == D32SfloatS8Uint || format == D24UnormS8Uint
  }

  /** The two feature words of `VkFormatProperties` the program reads. */
  datatype FormatProperties = FormatProperties(linearTilingFeatures: bv32, optimalTilingFeatures: bv32)

  /** The test inside the `findSupportedFormat` loop: only linear and optimal
      tiling are recognised, and then every requested feature bit must be set. */
  predicate Supports(props: FormatProperties, tiling: ImageTiling, features: bv32) {
    || (tiling == Linear && props.linearTilingFeatures & features == features)
    || (tiling == Optimal && props.optimalTilingFeatures & features == features)
  }

  /** The search of `findSupportedFormat` from candidate `i` on. */
  function FirstSupportedFrom(
    candidates: seq<Format>, i: nat, tiling: ImageTiling, features: bv32, props: Format -> FormatProperties)
    : (r: Result<nat>)
    requires i <= |candidates|
    ensures r.Ok? ==> i <= r.value < |candidates| && Supports(props(candidates[r.value]), tiling, features)
    ensures r.Ok? ==> forall j :: i <= j < r.value ==> !Supports(props(candidates[j]), tiling, features)
    ensures r.Err? ==> (r.error == NoSupportedFormat &&
              forall j :: i <= j < |candidates| ==> !Supports(props(candidates[j]), tiling, features))
    decreases |candidates| - i
  {
    if i == |candidates| then Err(NoSupportedFormat)
    else if Supports(props(candidates[i]), tiling, features) then Ok(i)
    else FirstSupportedFrom(candidates, i + 1, tiling, features, props)
  }

  /** `findSupportedFormat` (App.cpp:573-585): the first candidate whose
      properties (as `vkGetPhysicalDeviceFormatProperties` reports them)
      support the features for the tiling, or the "failed to find supported
      format" exception. */
  function FindSupportedFormat(
    candidates: seq<Format>, tiling: ImageTiling, features: bv32, props: Format -> FormatProperties)
    : (r: Result<Format>)
    ensures r.Ok? ==> exists k :: (0 <= k < |candidates| && candidates[k] == r.value &&
              Supports(props(r.value), tiling, features) &&
              forall j :: 0 <= j < k ==> !Supports(props(candidates[j]), tiling, features))
    ensures r.Err? <==> forall j :: 0 <= j < |candidates| ==> !Supports(props(candidates[j]), tiling, features)
    ensures r.Err? ==> r.error == NoSupportedFormat
  {
    var k := FirstSupportedFrom(candidates, 0, tiling, features, props);
    if k.Ok? then Ok(candidates[k.value]) else Err(NoSupportedFormat)
  }

  /** Tilings other than linear and optimal never match, so the search fails. */
  lemma OtherTilingFails(candidates: seq<Format>, code: int, features: bv32, props: Format -> FormatProperties)
    ensures FindSupportedFormat(candidates, OtherTiling(code), features, props) == Err(NoSupportedFormat)
  {
  }

  const DepthCandidates: seq<Format> := [D32Sfloat, D32SfloatS8Uint, D24UnormS8Uint]

  /** `findDepthFormat` (App.cpp:587-593). */
  function FindDepthFormat(props: Format -> FormatProperties): (r: Result<Format>)
    ensures r.Ok? ==> (r.value in DepthCandidates &&
              props(r.value).optimalTilingFeatures & DEPTH_STENCIL_ATTACHMENT_BIT == DEPTH_STENCIL_ATTACHMENT_BIT)
  {
    FindSupportedFormat(DepthCandidates, Optimal, DEPTH_STENCIL_ATTACHMENT_BIT, props)
  }

  /** The preferred depth format is the one without a stencil part: a device
      supporting 32-bit float depth gets it, and otherwise the chosen format
      carries stencil. */
  lemma DepthFormatStencil(props: Format -> FormatProperties)
    ensures Supports(props(D32Sfloat), Optimal, DEPTH_STENCIL_ATTACHMENT_BIT) ==>
              FindDepthFormat(props) == Ok(D32Sfloat)
    ensures var r := FindDepthFormat(props);
      r.Ok? ==> (HasStencilComponent(r.value) <==> r.value != D32Sfloat)
  {
    var r := FindDepthFormat(props);
    if r.Ok? {
      var k :| 0 <= k < |DepthCandidates| && DepthCandidates[k] == r.value;
      assert k == 0 || k == 1 || k == 2;
    }
  }

  // ---------------------------------------------------------------------------
  // findMemoryType

  /** `VK_MAX_MEMORY_TYPES`: the size of the `memoryTypes` array. */
  const MAX_MEMORY_TYPES: nat := 32

  predicate MemoryTypeFits(typeFilter: bv32, memoryTypes: seq<bv32>, properties: bv32, i: nat)
    requires i < |memoryTypes| <= MAX_MEMORY_TYPES
  {
    typeFilter & ((1 as bv32) << i) != 0 && memoryTypes[i] & properties == properties
  }

  function MemoryTypeFrom(typeFilter: bv32, memoryTypes: seq<bv32>, properties: bv32, i: nat): (r: Result<nat>)
    requires i <= |memoryTypes| <= MAX_MEMORY_TYPES
    ensures r.Ok? ==> i <= r.value < |memoryTypes| && MemoryTypeFits(typeFilter, memoryTypes, properties, r.value)
    ensures r.Ok? ==> forall j :: i <= j < r.value ==> !MemoryTypeFits(typeFilter, memoryTypes, properties, j)
    ensures r.Err? ==> (r.error == NoSuitableMemoryType &&
              forall j :: i <= j < |memoryTypes| ==> !MemoryTypeFits(typeFilter, memoryTypes, properties, j))
    decreases |memoryTypes| - i
  {
    if i == |memoryTypes| then Err(NoSuitableMemoryType)
    else if MemoryTypeFits(typeFilter, memoryTypes, properties, i) then Ok(i)
    else MemoryTypeFrom(typeFilter, memoryTypes, properties, i + 1)
  }

  /** `findMemoryType` (App.cpp:985-995): the lowest memory type allowed by the
      filter bit mask whose property flags include the requested ones.
      `memoryTypes` holds the first `memoryTypeCount` property words. */
  function FindMemoryType(typeFilter: bv32, memoryTypes: seq<bv32>, properties: bv32): (r: Result<nat>)
    requires |memoryTypes| <= MAX_MEMORY_TYPES
    ensures r.Ok? ==> (r.value < |memoryTypes| &&
              typeFilter & ((1 as bv32) << r.value) != 0 &&
              memoryTypes[r.value] & properties == properties)
    ensures r.Ok? ==> forall j :: 0 <= j < r.value ==> !MemoryTypeFits(typeFilter, memoryTypes, properties, j)
    ensures r.Err? <==> forall j :: 0 <= j < |memoryTypes| ==> !MemoryTypeFits(typeFilter, memoryTypes, properties, j)
    ensures r.Err? ==> r.error == NoSuitableMemoryType
  {
    MemoryTypeFrom(typeFilter, memoryTypes, properties, 0)
  }

  /** An empty filter admits no memory type. */
  lemma EmptyFilterFails(memoryTypes: seq<bv32>, properties: bv32)
    requires |memoryTypes| <= MAX_MEMORY_TYPES
    ensures FindMemoryType(0, memoryTypes, properties).Err?
  {
    forall j | 0 <= j < |memoryTypes|
      ensures !MemoryTypeFits(0, memoryTypes, properties, j)
    {
      assert (0 as bv32) & ((1 as bv32) << j) == 0;
    }
  }

  // ---------------------------------------------------------------------------
  // Barriers, blits and the per-level layout state machine

  /** The fields of a `VkImageMemoryBarrier` (colour aspect, one array layer)
      and the two stage masks of the `vkCmdPipelineBarrier` recording it. */
  datatype Barrier = Barrier(
    baseMipLevel: int, levelCount: int,
    oldLayout: ImageLayout, newLayout: ImageLayout,
    srcAccess: Access, dstAccess: Access,
    srcStage: PipelineStage, dstStage: PipelineStage)

  datatype MipSize = MipSize(width: int, height: int)

  /** A recorded command on one image. */
  datatype Command =
    | PipelineBarrier(barrier: Barrier)
    | BlitImage(srcLevel: int, srcLayout: ImageLayout, srcSize: MipSize,
                dstLevel: int, dstLayout: ImageLayout, dstSize: MipSize)

  /** The levels a barrier names lie in the image, and each of them is in the
      barrier's old layout (UNDEFINED accepts any layout and discards contents). */
  predicate BarrierApplies(layouts: seq<ImageLayout>, b: Barrier) {
    && 0 <= b.baseMipLevel
    && 0 <= b.levelCount
    && b.baseMipLevel + b.levelCount <= |layouts|
    && forall k :: b.baseMipLevel <= k < b.baseMipLevel + b.levelCount ==>
         b.oldLayout == UndefinedLayout || layouts[k] == b.oldLayout
  }

  /** The layouts after a barrier: the named levels move to the new layout. */
  function SetLayouts(layouts: seq<ImageLayout>, base: int, count: int, layout: ImageLayout): (r: seq<ImageLayout>)
    ensures |r| == |layouts|
    ensures forall k :: 0 <= k < |r| ==> r[k] == if base <= k < base + count then layout else layouts[k]
  {
    seq(|layouts|, k requires 0 <= k < |layouts| => if base <= k < base + count then layout else layouts[k])
  }

  /** One command's effect on the per-level layouts; None when the command is
      invalid in the current state (a blit's declared layouts must be the
      levels' actual ones). */
  function Step(layouts: seq<ImageLayout>, c: Command): Option<seq<ImageLayout>> {
    match c
    case PipelineBarrier(b) =>
      if BarrierApplies(layouts, b) then Some(SetLayouts(layouts, b.baseMipLevel, b.levelCount, b.newLayout))
      else None
    case BlitImage(src, srcLayout, _, dst, dstLayout, _) =>
      if 0 <= src < |layouts| && 0 <= dst < |layouts| && layouts[src] == srcLayout && layouts[dst] == dstLayout
      then Some(layouts)
      else None
  }

  /** Running a command buffer: None as soon as one command is invalid. */
  function Replay(layouts: seq<ImageLayout>, cmds: seq<Command>): Option<seq<ImageLayout>>
    decreases |cmds|
  {
    if |cmds| == 0 then Some(layouts)
    else match Step(layouts, cmds[0])
      case None => None
      case Some(next) => Replay(next, cmds[1..])
  }

  /** Replaying a longer buffer continues from where the shorter one ended. */
  lemma {:induction false} ReplayAppend(layouts: seq<ImageLayout>, cmds: seq<Command>, c: Command)
    ensures Replay(layouts, cmds + [c]) ==
              match Replay(layouts, cmds)
              case None => None
              case Some(t) => Step(t, c)
    decreases |cmds|
  {
    if |cmds| == 0 {
      assert cmds + [c] == [c];
      assert [c][1..] == [];
    } else {
      assert (cmds + [c])[0] == cmds[0];
      assert (cmds + [c])[1..] == cmds[1..] + [c];
      match Step(layouts, cmds[0])
      case None =>
      case Some(next) =>
        ReplayAppend(next, cmds[1..], c);
    }
  }

  // ---------------------------------------------------------------------------
  // transitionImageLayout (the five-argument overload)

  /** The barrier `transitionImageLayout` (App.cpp:997-1042) records: all
      `mipLevels` levels from level 0, with access masks and stages taken from
      a two-row table; any other pair of layouts throws "unsupported layout
      transition". */
  function TransitionImageLayout(oldLayout: ImageLayout, newLayout: ImageLayout, mipLevels: uint32): (r: Result<Barrier>)
    ensures r.Ok? <==>
              || (oldLayout == UndefinedLayout && newLayout == TransferDstOptimal)
              || (oldLayout == TransferDstOptimal && newLayout == ShaderReadOnlyOptimal)
    ensures r.Err? ==> r.error == UnsupportedLayoutTransition
    ensures r.Ok? ==>
              && r.value.oldLayout == oldLayout && r.value.newLayout == newLayout
              && r.value.baseMipLevel == 0 && r.value.levelCount == mipLevels
    ensures r.Ok? && oldLayout == UndefinedLayout ==>
              && r.value.srcAccess == NoAccess && r.value.dstAccess == TransferWrite
              && r.value.srcStage == TopOfPipe && r.value.dstStage == Transfer
    ensures r.Ok? && oldLayout == TransferDstOptimal ==>
              && r.value.srcAccess == TransferWrite && r.value.dstAccess == ShaderRead
              && r.value.srcStage == Transfer && r.value.dstStage == FragmentShader
  {
    if oldLayout == UndefinedLayout && newLayout == TransferDstOptimal then
      Ok(Barrier(0, mipLevels, oldLayout, newLayout, NoAccess, TransferWrite, TopOfPipe, Transfer))
    else if oldLayout == TransferDstOptimal && newLayout == ShaderReadOnlyOptimal then
      Ok(Barrier(0, mipLevels, oldLayout, newLayout, TransferWrite, ShaderRead, Transfer, FragmentShader))
    else
      Err(UnsupportedLayoutTransition)
  }

  function Uniform(n: nat, layout: ImageLayout): (r: seq<ImageLayout>)
    ensures |r| == n && forall k :: 0 <= k < n ==> r[k] == layout
  {
    seq(n, _ => layout)
  }

  /** The two table rows chain: from any state, the first moves every level to
      TRANSFER_DST, and from there the second moves every level to
      SHADER_READ_ONLY, so the pair is what a texture without mipmapping needs. */
  lemma TransitionChain(layouts: seq<ImageLayout>)
    requires |layouts| <= UINT32_MAX
    ensures var b := TransitionImageLayout(UndefinedLayout, TransferDstOptimal, |layouts|);
      b.Ok? && Step(layouts, PipelineBarrier(b.value)) == Some(Uniform(|layouts|, TransferDstOptimal))
    ensures var b := TransitionImageLayout(TransferDstOptimal, ShaderReadOnlyOptimal, |layouts|);
      b.Ok? && Step(Uniform(|layouts|, TransferDstOptimal), PipelineBarrier(b.value)) == Some(Uniform(|layouts|, ShaderReadOnlyOptimal))
  {
    var n := |layouts|;
    assert SetLayouts(layouts, 0, n, TransferDstOptimal) == Uniform(n, TransferDstOptimal);
    assert SetLayouts(Uniform(n, TransferDstOptimal), 0, n, ShaderReadOnlyOptimal) == Uniform(n, ShaderReadOnlyOptimal);
  }

  // ---------------------------------------------------------------------------
  // Mip-level count (App.cpp:608)

  function Pow2(k: nat): (r: nat)
    ensures r >= 1
  {
    if k == 0 then 1 else 2 * Pow2(k - 1)
  }

  /** floor(log2 n) on integers. */
  function FloorLog2(n: nat): (r: nat)
    requires n >= 1
    ensures Pow2(r) <= n < Pow2(r + 1)
  {
    if n == 1 then 0 else FloorLog2(n / 2) + 1
  }

  lemma {:induction false} Pow2Monotone(a: nat, b: nat)
    requires a < b
    ensures Pow2(a) < Pow2(b)
    decreases b
  {
    if a + 1 < b {
      Pow2Monotone(a, b - 1);
    }
  }

  /** floor(log2 n) is the only k with 2^k <= n < 2^(k+1). */
  lemma FloorLog2Unique(n: nat, k: nat)
    requires n >= 1
    requires Pow2(k) <= n < Pow2(k + 1)
    ensures FloorLog2(n) == k
  {
    var r := FloorLog2(n);
    if r < k {
      Pow2Monotone(r + 1, k + 1);
      if r + 1 < k { Pow2Monotone(r + 1, k); }
    } else if k < r {
      Pow2Monotone(k + 1, r + 1);
      if k + 1 < r { Pow2Monotone(k + 1, r); }
    }
  }

  /** `_mipLevels` = floor(log2(max(texWidth, texHeight))) + 1. The texture
      loader only reports positive sizes. */
  function MipLevels(texWidth: int, texHeight: int): (r: nat)
    requires texWidth >= 1 && texHeight >= 1
    ensures r >= 1
    ensures var m := if texWidth < texHeight then texHeight else texWidth;
      Pow2(r - 1) <= m < Pow2(r)
  {
    FloorLog2(if texWidth < texHeight then texHeight else texWidth) + 1
  }

  lemma MipLevelsExamples()
    ensures MipLevels(512, 256) == 10
    ensures MipLevels(1, 1) == 1
    ensures MipLevels(1920, 1080) == 11
  {
    assert Pow2(9) == 512 && Pow2(10) == 1024 && Pow2(11) == 2048;
    FloorLog2Unique(512, 9);
    FloorLog2Unique(1, 0);
    FloorLog2Unique(1920, 10);
  }

  /** The blit destination size for a source size: halved, never below 1. */
  function Halved(n: int): int {
    if n > 1 then n / 2 else 1
  }

  /** The loop's update of `mipWidth`/`mipHeight`: halved while above 1. */
  function Shrink(n: int): int {
    if n > 1 then n / 2 else n
  }

  /** `mipWidth` before the k-th pass (from 0). */
  function ShrinkTimes(n: int, k: nat): int {
    if k == 0 then n else Shrink(ShrinkTimes(n, k - 1))
  }

  function MipSizeAt(texWidth: int, texHeight: int, k: nat): MipSize {
    MipSize(ShrinkTimes(texWidth, k), ShrinkTimes(texHeight, k))
  }

  /** For a positive texture size every level is at least 1 wide and each
      blit's destination is the next blit's source. */
  lemma {:induction false} ShrinkTimesPositive(n: int, k: nat)
    requires n >= 1
    ensures ShrinkTimes(n, k) >= 1
    ensures Halved(ShrinkTimes(n, k)) == ShrinkTimes(n, k + 1)
  {
    if k > 0 {
      ShrinkTimesPositive(n, k - 1);
    }
  }

  /** Shrinking k+1 times is shrinking once and then k times. */
  lemma {:induction false} ShrinkTimesShift(n: int, k: nat)
    ensures ShrinkTimes(n, k + 1) == ShrinkTimes(Shrink(n), k)
  {
    if k > 0 {
      ShrinkTimesShift(n, k - 1);
    }
  }

  lemma {:induction false} ShrinkToOne(m: nat)
    requires m >= 1
    ensures ShrinkTimes(m, FloorLog2(m)) == 1
    decreases m
  {
    if m > 1 {
      ShrinkToOne(m / 2);
      ShrinkTimesShift(m, FloorLog2(m / 2));
    }
  }

  /** The mip chain ends at size 1: after `MipLevels - 1` halvings the larger
      dimension is exactly 1. */
  lemma LastLevelIsOne(texWidth: int, texHeight: int)
    requires texWidth >= 1 && texHeight >= 1
    ensures var m := if texWidth < texHeight then texHeight else texWidth;
      ShrinkTimes(m, MipLevels(texWidth, texHeight) - 1) == 1
  {
    ShrinkToOne(if texWidth < texHeight then texHeight else texWidth);
  }

  // ---------------------------------------------------------------------------
  // generateMipmaps (App.cpp:633-717)

  /** The three commands of pass i (1 <= i): level i-1 to TRANSFER_SRC, the blit
      from level i-1 into level i, and level i-1 to SHADER_READ_ONLY. */
  function PassCommands(texWidth: int, texHeight: int, i: nat): seq<Command>
    requires i >= 1
  {
    var size := MipSizeAt(texWidth, texHeight, i - 1);
    [ PipelineBarrier(Barrier(i - 1, 1, TransferDstOptimal, TransferSrcOptimal, TransferWrite, TransferRead, Transfer, Transfer)),
      BlitImage(i - 1, TransferSrcOptimal, size, i, TransferDstOptimal, MipSize(Halved(size.width), Halved(size.height))),
      PipelineBarrier(Barrier(i - 1, 1, TransferSrcOptimal, ShaderReadOnlyOptimal, TransferRead, ShaderRead, Transfer, FragmentShader)) ]
  }

  /** The closing barrier on the last level, in uint32 arithmetic. */
  function FinalBarrier(mipLevels: nat): Command {
    PipelineBarrier(Barrier(ToU32(mipLevels - 1), 1, TransferDstOptimal, ShaderReadOnlyOptimal,
                            TransferWrite, ShaderRead, Transfer, FragmentShader))
  }

  /** The passes 1..m, in order. */
  function Passes(texWidth: int, texHeight: int, m: nat): (r: seq<Command>)
    ensures |r| == 3 * m
  {
    if m == 0 then [] else Passes(texWidth, texHeight, m - 1) + PassCommands(texWidth, texHeight, m)
  }

  /** The command buffer `generateMipmaps` records for an image of `mipLevels` levels. */
  function MipCommands(texWidth: int, texHeight: int, mipLevels: nat): seq<Command> {
    Passes(texWidth, texHeight, if mipLevels == 0 then 0 else mipLevels - 1) + [FinalBarrier(mipLevels)]
  }

  /** Pass j occupies commands 3(j-1) to 3j-1 of the buffer. */
  lemma {:induction false} PassesLayout(texWidth: int, texHeight: int, m: nat, j: nat)
    requires 1 <= j <= m
    ensures Passes(texWidth, texHeight, m)[3 * (j - 1)..3 * j] == PassCommands(texWidth, texHeight, j)
  {
    if j < m {
      PassesLayout(texWidth, texHeight, m - 1, j);
      var p := Passes(texWidth, texHeight, m - 1);
      assert (p + PassCommands(texWidth, texHeight, m))[3 * (j - 1)..3 * j] == p[3 * (j - 1)..3 * j];
    } else {
      var p := Passes(texWidth, texHeight, m - 1);
      assert (p + PassCommands(texWidth, texHeight, m))[3 * (m - 1)..] == PassCommands(texWidth, texHeight, m);
    }
  }

  /** The blits of a positive-sized texture follow the mip chain: pass i reads
      level i-1 at its size and writes level i at that size halved (never
      below 1), which is exactly the size the next pass reads. */
  lemma BlitSizes(texWidth: int, texHeight: int, i: nat)
    requires texWidth >= 1 && texHeight >= 1 && i >= 1
    ensures var c := PassCommands(texWidth, texHeight, i)[1];
      && c.BlitImage?
      && c.srcLevel == i - 1 && c.dstLevel == i
      && c.srcSize.width >= 1 && c.srcSize.height >= 1
      && c.dstSize == MipSizeAt(texWidth, texHeight, i)
      && c.dstSize == MipSize(Halved(c.srcSize.width), Halved(c.srcSize.height))
  {
    ShrinkTimesPositive(texWidth, i - 1);
    ShrinkTimesPositive(texHeight, i - 1);
  }

  /** The state before pass i: the levels below i-1 are finished, the rest are
      still in TRANSFER_DST. */
  function BeforePass(n: nat, i: nat): (r: seq<ImageLayout>)
    ensures |r| == n
  {
    seq(n, k => if k + 1 < i then ShaderReadOnlyOptimal else TransferDstOptimal)
  }

  /** Pass i is valid from its expected state and leaves the next state: the
      first barrier finds level i-1 in TRANSFER_DST, the blit finds level i-1
      in TRANSFER_SRC and level i in TRANSFER_DST, and the last barrier finds
      level i-1 in TRANSFER_SRC. */
  lemma PassStep(start: seq<ImageLayout>, cmds: seq<Command>, texWidth: int, texHeight: int, n: nat, i: nat)
    requires 1 <= i < n
    requires Replay(start, cmds) == Some(BeforePass(n, i))
    ensures Replay(start, cmds + PassCommands(texWidth, texHeight, i)) == Some(BeforePass(n, i + 1))
  {
    var c := PassCommands(texWidth, texHeight, i);
    var s0 := BeforePass(n, i);
    var s1 := s0[i - 1 := TransferSrcOptimal];
    var s2 := BeforePass(n, i + 1);
    assert Step(s0, c[0]) == Some(s1) by {
      assert SetLayouts(s0, i - 1, 1, TransferSrcOptimal) == s1;
    }
    assert Step(s1, c[1]) == Some(s1);
    assert Step(s1, c[2]) == Some(s2) by {
      assert SetLayouts(s1, i - 1, 1, ShaderReadOnlyOptimal) == s2;
    }
    ReplayAppend(start, cmds, c[0]);
    ReplayAppend(start, cmds + [c[0]], c[1]);
    ReplayAppend(start, cmds + [c[0]] + [c[1]], c[2]);
    assert cmds + [c[0]] + [c[1]] + [c[2]] == cmds + c;
  }

  /** From every level in TRANSFER_DST the first m passes are valid. */
  lemma {:induction false} ReplayPasses(texWidth: int, texHeight: int, n: nat, m: nat)
    requires m < n
    ensures Replay(Uniform(n, TransferDstOptimal), Passes(texWidth, texHeight, m)) == Some(BeforePass(n, m + 1))
  {
    if m == 0 {
      assert Uniform(n, TransferDstOptimal) == BeforePass(n, 1);
    } else {
      ReplayPasses(texWidth, texHeight, n, m - 1);
      PassStep(Uniform(n, TransferDstOptimal), Passes(texWidth, texHeight, m - 1), texWidth, texHeight, n, m);
    }
  }

  /** The whole buffer, replayed from the layout the texture is left in by its
      upload (all levels TRANSFER_DST), is valid and ends with every level
      SHADER_READ_ONLY. With no levels, the final barrier names level
      UINT32_MAX, which does not exist. */
  lemma MipCommandsValid(texWidth: int, texHeight: int, n: nat)
    requires n <= UINT32_MAX
    ensures Replay(Uniform(n, TransferDstOptimal), MipCommands(texWidth, texHeight, n)) ==
              if n == 0 then None else Some(Uniform(n, ShaderReadOnlyOptimal))
  {
    var start := Uniform(n, TransferDstOptimal);
    var m := if n == 0 then 0 else n - 1;
    ReplayAppend(start, Passes(texWidth, texHeight, m), FinalBarrier(n));
    if n >= 1 {
      ReplayPasses(texWidth, texHeight, n, n - 1);
      var s := BeforePass(n, n);
      assert SetLayouts(s, n - 1, 1, ShaderReadOnlyOptimal) == Uniform(n, ShaderReadOnlyOptimal);
    } else {
      assert Passes(texWidth, texHeight, 0) == [];
      assert Replay(start, []) == Some(start);
    }
  }

  /** `generateMipmaps`: `levels` holds the layout of each of the image's
      `mipLevels` levels, which the loop's barriers update; the result is the
      recorded command buffer. The caller has moved every level to
      TRANSFER_DST (App.cpp:621-623) and `mipLevels` is a uint32. A format
      without linear-filter support for optimal tiling throws before anything
      is recorded or changed. Otherwise the array ends in the state that
      replaying the recorded buffer from its old contents reaches. */
  method GenerateMipmaps(optimalTilingFeatures: bv32, texWidth: int, texHeight: int, levels: array<ImageLayout>)
    returns (r: Result<seq<Command>>)
    requires levels.Length <= UINT32_MAX
    requires levels[..] == Uniform(levels.Length, TransferDstOptimal)
    modifies levels
    ensures r.Err? <==> optimalTilingFeatures & SAMPLED_IMAGE_FILTER_LINEAR_BIT == 0
    ensures r.Err? ==> r.error == NoLinearBlit && levels[..] == old(levels[..])
    ensures r.Ok? ==> r.value == MipCommands(texWidth, texHeight, levels.Length)
    ensures r.Ok? && levels.Length >= 1 ==> Replay(old(levels[..]), r.value) == Some(levels[..])
    ensures r.Ok? && levels.Length == 0 ==> Replay(old(levels[..]), r.value) == None && levels[..] == old(levels[..])
    ensures r.Ok? && levels.Length >= 1 ==> levels[..] == Uniform(levels.Length, ShaderReadOnlyOptimal)
  {
    if optimalTilingFeatures & SAMPLED_IMAGE_FILTER_LINEAR_BIT == 0 {
      return Err(NoLinearBlit);
    }
    var n := levels.Length;
    var cmds: seq<Command> := [];
    var mipWidth, mipHeight := texWidth, texHeight;
    var i := 1;
    while i < n
      invariant 1 <= i <= (if n == 0 then 1 else n)
      invariant cmds == Passes(texWidth, texHeight, i - 1)
      invariant MipSize(mipWidth, mipHeight) == MipSizeAt(texWidth, texHeight, i - 1)
      invariant forall k :: 0 <= k < n && k + 1 < i ==> levels[k] == ShaderReadOnlyOptimal
    {
      var pass := [
        PipelineBarrier(Barrier(i - 1, 1, TransferDstOptimal, TransferSrcOptimal, TransferWrite, TransferRead, Transfer, Transfer)),
        BlitImage(i - 1, TransferSrcOptimal, MipSize(mipWidth, mipHeight),
                  i, TransferDstOptimal, MipSize(if mipWidth > 1 then mipWidth / 2 else 1, if mipHeight > 1 then mipHeight / 2 else 1)),
        PipelineBarrier(Barrier(i - 1, 1, TransferSrcOptimal, ShaderReadOnlyOptimal, TransferRead, ShaderRead, Transfer, FragmentShader))];
      assert pass == PassCommands(texWidth, texHeight, i);
      levels[i - 1] := TransferSrcOptimal;
      levels[i - 1] := ShaderReadOnlyOptimal;
      cmds := cmds + pass;
      if mipWidth > 1 { mipWidth := mipWidth / 2; }
      if mipHeight > 1 { mipHeight := mipHeight / 2; }
      i := i + 1;
    }
    if n >= 1 {
      assert i == n;
      levels[n - 1] := ShaderReadOnlyOptimal;
      assert levels[..] == Uniform(n, ShaderReadOnlyOptimal);
    }
    assert cmds == Passes(texWidth, texHeight, if n == 0 then 0 else n - 1);
    cmds := cmds + [FinalBarrier(n)];
    MipCommandsValid(texWidth, texHeight, n);
    return Ok(cmds);
  }
}
