/** The swap-chain choices of `App::createSwapchain` (App.cpp:129-227): the
    surface format, the present mode, the extent, the image count and the
    sharing mode written into `VkSwapchainCreateInfoKHR`. */
module Swapchain {
  import opened Vulkan
  import opened AppDeviceTypes

  /** The format the program asks for: 8-bit BGRA in the sRGB non-linear space. */
  const PreferredFormat: SurfaceFormat := SurfaceFormat(B8G8R8A8Unorm, SrgbNonlinear)

  /** The surface reports "no preference": a single entry of undefined format. */
  predicate NoPreference(available: seq<SurfaceFormat>) {
    |available| == 1 && available[0].format == UndefinedFormat
  }

  /** The choice `chooseSwapSurfaceFormat` makes. */
  function SurfaceFormatFor(available: seq<SurfaceFormat>): SurfaceFormat
    requires |available| > 0
  {
    if NoPreference(available) then PreferredFormat
    else if PreferredFormat in available then PreferredFormat
    else available[0]
  }

  /** `chooseSwapSurfaceFormat` (App.cpp:129-141). The list is never empty
      here: an empty list makes the device unsuitable, and `available[0]`
      would be undefined behaviour. */
  method ChooseSwapSurfaceFormat(available: seq<SurfaceFormat>) returns (r: SurfaceFormat)
    requires |available| > 0
    ensures r == SurfaceFormatFor(available)
  {
    if |available| == 1 && available[0].format == UndefinedFormat {
      return PreferredFormat;
    }
    var i := 0;
    while i < |available|
      invariant 0 <= i <= |available|
      invariant PreferredFormat !in available[..i]
    {
      if available[i].format == B8G8R8A8Unorm && available[i].colorSpace == SrgbNonlinear {
        assert available[i] == PreferredFormat;
        return available[i];
      }
      assert available[..i + 1] == available[..i] + [available[i]];
      i := i + 1;
    }
    assert available[..i] == available;
    return available[0];
  }

  /** The surface format is always one the surface offers, except in the
      no-preference case, and the preferred one is taken whenever possible. */
  lemma SurfaceFormatChoice(available: seq<SurfaceFormat>)
    requires |available| > 0
    ensures var r := SurfaceFormatFor(available);
      && (NoPreference(available) || r in available)
      && (PreferredFormat in available ==> r == PreferredFormat)
      && (r != PreferredFormat ==> r == available[0] && !NoPreference(available))
  {
  }

  /** The choice `chooseSwapPresentMode` makes: mailbox, else immediate, else FIFO. */
  function PresentModeFor(available: seq<PresentMode>): PresentMode {
    if Mailbox in available then Mailbox
    else if Immediate in available then Immediate
    else Fifo
  }

  /** `chooseSwapPresentMode` (App.cpp:143-155). */
  method ChooseSwapPresentMode(available: seq<PresentMode>) returns (r: PresentMode)
    ensures r == PresentModeFor(available)
  {
    r := Fifo;
    var i := 0;
    while i < |available|
      invariant 0 <= i <= |available|
      invariant Mailbox !in available[..i]
      invariant r == if Immediate in available[..i] then Immediate else Fifo
    {
      assert available[..i + 1] == available[..i] + [available[i]];
      if available[i] == Mailbox {
        return available[i];
      } else if available[i] == Immediate {
        r := available[i];
      }
      i := i + 1;
    }
    assert available[..i] == available;
  }

  /** FIFO, the one mode every surface must support, is the fallback: the
      result is always offered or FIFO, and mailbox wins over immediate. */
  lemma PresentModeChoice(available: seq<PresentMode>)
    ensures var r := PresentModeFor(available);
      && (r in available || r == Fifo)
      && (r == Fifo <==> Mailbox !in available && Immediate !in available)
      && (r == Immediate ==> Mailbox !in available)
  {
  }

  function Clamp(lo: uint32, hi: uint32, x: uint32): uint32 {
    if lo < (if hi < x then hi else x) then (if hi < x then hi else x) else lo
  }

  /** `chooseSwapExtent` (App.cpp:158-175). When the surface fixes its extent
      the program takes it; otherwise it reads the window size (the result of
      `getWindowSize`, as signed ints), casts it to uint32 and clamps it into
      the allowed range, the maximum first and then the minimum. */
  function ChooseSwapExtent(caps: SurfaceCapabilities, windowSize: (int, int)): (r: Extent2D)
    ensures caps.currentExtent.width != UINT32_MAX ==> r == caps.currentExtent
    ensures caps.currentExtent.width == UINT32_MAX ==>
      && r.width >= caps.minImageExtent.width
      && r.height >= caps.minImageExtent.height
      && (caps.minImageExtent.width <= caps.maxImageExtent.width ==> r.width <= caps.maxImageExtent.width)
      && (caps.minImageExtent.height <= caps.maxImageExtent.height ==> r.height <= caps.maxImageExtent.height)
      && (caps.minImageExtent.width <= ToU32(windowSize.0) <= caps.maxImageExtent.width ==>
            r.width == ToU32(windowSize.0))
      && (caps.minImageExtent.height <= ToU32(windowSize.1) <= caps.maxImageExtent.height ==>
            r.height == ToU32(windowSize.1))
  {
    if caps.currentExtent.width != UINT32_MAX then caps.currentExtent
    else
      Extent2D(
        Clamp(caps.minImageExtent.width, caps.maxImageExtent.width, ToU32(windowSize.0)),
        Clamp(caps.minImageExtent.height, caps.maxImageExtent.height, ToU32(windowSize.1)))
  }

  /** Choosing again from a chosen extent (with the surface still leaving the
      extent open) gives the same extent. */
  lemma ChooseSwapExtentIdempotent(caps: SurfaceCapabilities, windowSize: (int, int))
    requires caps.currentExtent.width == UINT32_MAX
    requires caps.minImageExtent.width <= caps.maxImageExtent.width
    requires caps.minImageExtent.height <= caps.maxImageExtent.height
    ensures var e := ChooseSwapExtent(caps, windowSize);
      ChooseSwapExtent(caps, (e.width, e.height)) == e
  {
  }

  /** A window larger than the maximum in one dimension and smaller than the
      minimum in the other is clamped dimension by dimension. */
  lemma ChooseSwapExtentExample(caps: SurfaceCapabilities)
    requires caps.currentExtent.width == UINT32_MAX
    requires caps.minImageExtent == Extent2D(100, 100) && caps.maxImageExtent == Extent2D(4096, 4096)
    ensures ChooseSwapExtent(caps, (8000, 50)) == Extent2D(4096, 100)
  {
  }

  /** A negative window dimension (which `getWindowSize` lets through) wraps to
      a huge uint32 and is clamped to the maximum extent. */
  lemma NegativeWindowSizeClampsToMax(caps: SurfaceCapabilities, windowSize: (int, int))
    requires caps.currentExtent.width == UINT32_MAX
    requires caps.minImageExtent.width <= caps.maxImageExtent.width
    requires -0x1_0000_0000 + caps.maxImageExtent.width < windowSize.0 < 0
    ensures ChooseSwapExtent(caps, windowSize).width == caps.maxImageExtent.width
  {
    assert ToU32(windowSize.0) == windowSize.0 + 0x1_0000_0000;
  }

  /** The `imageCount` computation of `createSwapchain` (App.cpp:184-187): one
      more than the minimum, in uint32 arithmetic, capped by a non-zero maximum. */
  function ImageCount(caps: SurfaceCapabilities): (r: uint32)
    ensures caps.maxImageCount > 0 ==> r <= caps.maxImageCount
    ensures caps.minImageCount < UINT32_MAX && (caps.maxImageCount == 0 || caps.minImageCount < caps.maxImageCount) ==>
              r == caps.minImageCount + 1
    ensures caps.minImageCount < UINT32_MAX && 0 < caps.maxImageCount <= caps.minImageCount ==>
              r == caps.maxImageCount
    ensures caps.minImageCount == UINT32_MAX ==> r == 0
  {
    var count := ToU32(caps.minImageCount + 1);
    if caps.maxImageCount > 0 && count > caps.maxImageCount then caps.maxImageCount else count
  }

  /** Under the guarantees Vulkan gives for the capabilities (a non-zero
      minimum, and a maximum that is zero or at least the minimum) the request
      lies within the allowed range and asks for at least one image. */
  lemma ImageCountInRange(caps: SurfaceCapabilities)
    requires 1 <= caps.minImageCount < UINT32_MAX
    requires caps.maxImageCount == 0 || caps.minImageCount <= caps.maxImageCount
    ensures caps.minImageCount <= ImageCount(caps)
    ensures caps.maxImageCount == 0 || ImageCount(caps) <= caps.maxImageCount
    ensures ImageCount(caps) >= 1
  {
  }

  datatype SharingMode = Exclusive | Concurrent

  /** The sharing fields of the create info (App.cpp:199-210). */
  datatype Sharing = Sharing(mode: SharingMode, queueFamilyIndices: seq<uint32>)

  /** A concurrent image lists both families (cast to uint32); an exclusive one
      lists none. */
  function SharingFor(indices: QueueFamilyIndices): (r: Sharing)
    ensures r.mode == Concurrent <==> indices.graphicsFamily != indices.presentFamily
    ensures r.mode == Concurrent ==> |r.queueFamilyIndices| == 2
    ensures r.mode == Exclusive ==> r.queueFamilyIndices == []
    ensures indices.IsComplete() && indices.graphicsFamily <= UINT32_MAX && indices.presentFamily <= UINT32_MAX &&
            r.mode == Concurrent ==>
              r.queueFamilyIndices[0] as int == indices.graphicsFamily &&
              r.queueFamilyIndices[1] as int == indices.presentFamily &&
              r.queueFamilyIndices[0] != r.queueFamilyIndices[1]
  {
    if indices.graphicsFamily != indices.presentFamily then
      Sharing(Concurrent, [ToU32(indices.graphicsFamily), ToU32(indices.presentFamily)])
    else
      Sharing(Exclusive, [])
  }

  /** The fields of `VkSwapchainCreateInfoKHR` the program chooses. */
  datatype SwapchainCreateInfo = SwapchainCreateInfo(
    minImageCount: uint32,
    imageFormat: Format,
    imageColorSpace: ColorSpace,
    imageExtent: Extent2D,
    imageArrayLayers: nat,
    sharing: Sharing,
    presentMode: PresentMode,
    clipped: bool)

  /** The create info `createSwapchain` fills before calling
      `vkCreateSwapchainKHR`. `windowSize` is what `getWindowSize` returns. */
  method CreateSwapchainInfo(
    formats: seq<SurfaceFormat>, presentModes: seq<PresentMode>, caps: SurfaceCapabilities,
    windowSize: (int, int), indices: QueueFamilyIndices)
    returns (info: SwapchainCreateInfo)
    requires |formats| > 0
    ensures info.minImageCount == ImageCount(caps)
    ensures SurfaceFormat(info.imageFormat, info.imageColorSpace) == SurfaceFormatFor(formats)
    ensures info.imageExtent == ChooseSwapExtent(caps, windowSize)
    ensures info.imageArrayLayers == 1
    ensures info.sharing == SharingFor(indices)
    ensures info.presentMode == PresentModeFor(presentModes)
    ensures info.clipped
  {
    var surfaceFormat := ChooseSwapSurfaceFormat(formats);
    var presentMode := ChooseSwapPresentMode(presentModes);
    var extent := ChooseSwapExtent(caps, windowSize);
    info := SwapchainCreateInfo(
      ImageCount(caps), surfaceFormat.format, surfaceFormat.colorSpace, extent, 1,
      SharingFor(indices), presentMode, true);
  }
}
