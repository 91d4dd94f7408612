/** The slice of the Vulkan API that the renderer's decision procedures read or
    produce: enumerations are datatypes (one constructor per value the program
    names, plus a catch-all for the rest), flag words are 32-bit vectors, and the
    C++ exceptions the program throws become the Err case of a Result. */
module Vulkan {

  const UINT32_MAX: nat := 0xFFFF_FFFF

  /** A C++ `uint32_t`. */
  type uint32 = n: nat | n <= 0xFFFF_FFFF

  /** `static_cast<uint32_t>(n)` and unsigned 32-bit arithmetic: reduction
      modulo 2^32 (Dafny's `%` is Euclidean, so negative values wrap as in C++). */
  function ToU32(n: int): (r: uint32)
    ensures 0 <= n <= UINT32_MAX ==> r == n
    ensures (r - n) % 0x1_0000_0000 == 0
  {
    n % 0x1_0000_0000
  }

  datatype Format =
    | UndefinedFormat
    | B8G8R8A8Unorm
    | R8G8B8A8Unorm
    | R8G8B8A8Srgb
    | R32G32Sfloat
    | R32G32B32Sfloat
    | D32Sfloat
    | D32SfloatS8Uint
    | D24UnormS8Uint
    | OtherFormat(code: int)

  datatype ColorSpace = SrgbNonlinear | OtherColorSpace(code: int)

  datatype SurfaceFormat = SurfaceFormat(format: Format, colorSpace: ColorSpace)

  datatype PresentMode = Immediate | Mailbox | Fifo | FifoRelaxed | OtherPresentMode(code: int)

  datatype Extent2D = Extent2D(width: uint32, height: uint32)

  /** The fields of `VkSurfaceCapabilitiesKHR` the program reads. */
  datatype SurfaceCapabilities = SurfaceCapabilities(
    minImageCount: uint32,
    maxImageCount: uint32,
    currentExtent: Extent2D,
    minImageExtent: Extent2D,
    maxImageExtent: Extent2D)

  datatype ImageLayout =
    | UndefinedLayout
    | GeneralLayout
    | TransferSrcOptimal
    | TransferDstOptimal
    | ShaderReadOnlyOptimal
    | PresentSrc

  datatype ImageTiling = Optimal | Linear | OtherTiling(code: int)

  /** Access masks as the program uses them: one bit (or none) per barrier side. */
  datatype Access = NoAccess | TransferRead | TransferWrite | ShaderRead | MemoryRead

  datatype PipelineStage = TopOfPipe | Transfer | FragmentShader | ColorAttachmentOutput

  /** `VkResult` values that the frame loop distinguishes. */
  datatype VkResult = Success | Suboptimal | OutOfDate | OtherResult(code: int)

  // VkFormatFeatureFlagBits used by the program
  const SAMPLED_IMAGE_FILTER_LINEAR_BIT: bv32 := 0x1000
  const DEPTH_STENCIL_ATTACHMENT_BIT: bv32 := 0x200

  // VkQueueFlagBits
  const QUEUE_GRAPHICS_BIT: bv32 := 0x1

  // VkSampleCountFlagBits
  const SAMPLE_COUNT_1_BIT: bv32 := 0x01
  const SAMPLE_COUNT_2_BIT: bv32 := 0x02
  const SAMPLE_COUNT_4_BIT: bv32 := 0x04
  const SAMPLE_COUNT_8_BIT: bv32 := 0x08
  const SAMPLE_COUNT_16_BIT: bv32 := 0x10
  const SAMPLE_COUNT_32_BIT: bv32 := 0x20
  const SAMPLE_COUNT_64_BIT: bv32 := 0x40

  /** The `std::runtime_error`/`std::invalid_argument` cases of the core. */
  datatype Error =
    | NoVulkanDevices
    | NoSupportedFormat
    | NoSuitableMemoryType
    | UnsupportedLayoutTransition
    | NoLinearBlit
    | AcquireFailed
    | SubmitFailed
    | PresentFailed

  datatype Option<T> = None | Some(value: T)

  datatype Result<T> = Ok(value: T) | Err(error: Error)

  /** A call that returns nothing or throws. */
  datatype Outcome = Pass | Fail(error: Error)
}
