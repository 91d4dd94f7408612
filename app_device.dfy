/** Device selection and the window-size wait of AppDevice.cpp: the queue-family
    scan, the extension and validation-layer checks, the suitability test, the
    first-suitable device pick, the MSAA sample count and the queue-create list. */
module AppDevice {
  import opened Vulkan
  import opened AppDeviceTypes

  /** One `VkQueueFamilyProperties` entry, with the surface's answer to
      `vkGetPhysicalDeviceSurfaceSupportKHR` for that family index. */
  datatype QueueFamily = QueueFamily(queueCount: nat, queueFlags: bv32, presentSupport: bool)

  /** What the Vulkan queries report about one physical device. */
  datatype PhysicalDevice = PhysicalDevice(
    queueFamilies: seq<QueueFamily>,
    extensions: seq<string>,
    formats: seq<SurfaceFormat>,
    presentModes: seq<PresentMode>,
    capabilities: SurfaceCapabilities,
    samplerAnisotropy: bool,
    framebufferColorSampleCounts: bv32,
    framebufferDepthSampleCounts: bv32)

  predicate IsGraphicsFamily(f: QueueFamily) {
    f.queueCount > 0 && f.queueFlags & QUEUE_GRAPHICS_BIT != 0
  }

  predicate IsPresentFamily(f: QueueFamily) {
    f.queueCount > 0 && f.presentSupport
  }

  // ---------------------------------------------------------------------------
  // findQueueFamilies

  /** The two roles the scan fills. */
  datatype Role = Graphics | Present

  predicate Qualifies(f: QueueFamily, role: Role) {
    match role
    case Graphics => IsGraphicsFamily(f)
    case Present => IsPresentFamily(f)
  }

  /** The largest index below `bound` whose family satisfies `p`, or -1. */
  function LastWhere(fs: seq<QueueFamily>, role: Role, bound: nat): (r: int)
    requires bound <= |fs|
    ensures -1 <= r < bound
    ensures r >= 0 ==> Qualifies(fs[r], role)
    ensures forall j :: r < j < bound ==> !Qualifies(fs[j], role)
  {
    if bound == 0 then -1
    else if Qualifies(fs[bound - 1], role) then bound - 1
    else LastWhere(fs, role, bound - 1)
  }

  /** The first `n` families hold a graphics-capable and a present-capable one. */
  predicate CompleteWithin(fs: seq<QueueFamily>, n: nat)
    requires n <= |fs|
  {
    LastWhere(fs, Graphics, n) >= 0 && LastWhere(fs, Present, n) >= 0
  }

  function ScanFrom(fs: seq<QueueFamily>, m: nat): (n: nat)
    requires m <= |fs|
    requires forall k :: 0 <= k < m ==> !CompleteWithin(fs, k)
    ensures m <= n <= |fs|
    ensures n == |fs| || CompleteWithin(fs, n)
    ensures forall k :: 0 <= k < n ==> !CompleteWithin(fs, k)
    decreases |fs| - m
  {
    if m == |fs| || CompleteWithin(fs, m) then m else ScanFrom(fs, m + 1)
  }

  /** How many families the scan looks at: it stops right after the first
      family that completes the pair, or at the end of the list. */
  function ScanLength(fs: seq<QueueFamily>): (n: nat)
    ensures n <= |fs|
    ensures n == |fs| || CompleteWithin(fs, n)
    ensures forall k :: 0 <= k < n ==> !CompleteWithin(fs, k)
  {
    ScanFrom(fs, 0)
  }

  /** What `findQueueFamilies` returns: within the scanned prefix, the last
      family qualifying for each role, or -1. */
  function QueueFamiliesOf(fs: seq<QueueFamily>): QueueFamilyIndices {
    var n := ScanLength(fs);
    QueueFamilyIndices(LastWhere(fs, Graphics, n), LastWhere(fs, Present, n))
  }

  lemma LastWhereFound(fs: seq<QueueFamily>, role: Role, bound: nat)
    requires bound <= |fs|
    ensures LastWhere(fs, role, bound) >= 0 <==> exists i :: 0 <= i < bound && Qualifies(fs[i], role)
  {
    var r := LastWhere(fs, role, bound);
    if r < 0 {
      forall i | 0 <= i < bound ensures !Qualifies(fs[i], role) { }
    }
  }

  /** `findQueueFamilies` (AppDevice.cpp:93-121). */
  method FindQueueFamilies(fs: seq<QueueFamily>) returns (indices: QueueFamilyIndices)
    ensures indices == QueueFamiliesOf(fs)
  {
    indices := DefaultQueueFamilyIndices();
    var i := 0;
    while i < |fs|
      invariant 0 <= i <= |fs|
      invariant indices == QueueFamilyIndices(LastWhere(fs, Graphics, i), LastWhere(fs, Present, i))
      invariant forall k :: 0 <= k <= i ==> !CompleteWithin(fs, k)
    {
      if IsPresentFamily(fs[i]) {
        indices := indices.(presentFamily := i);
      }
      if IsGraphicsFamily(fs[i]) {
        indices := indices.(graphicsFamily := i);
      }
      assert indices == QueueFamilyIndices(LastWhere(fs, Graphics, i + 1), LastWhere(fs, Present, i + 1));
      if indices.IsComplete() {
        ScanStops(fs, i);
        return;
      }
      i := i + 1;
    }
  }

  lemma ScanStops(fs: seq<QueueFamily>, i: nat)
    requires i < |fs|
    requires forall k :: 0 <= k <= i ==> !CompleteWithin(fs, k)
    requires CompleteWithin(fs, i + 1)
    ensures ScanLength(fs) == i + 1
  {
  }

  /** The result is complete exactly when the device has a graphics-capable and
      a present-capable family somewhere in its list. */
  lemma QueueFamiliesComplete(fs: seq<QueueFamily>)
    ensures QueueFamiliesOf(fs).IsComplete() <==>
              (exists i :: 0 <= i < |fs| && IsGraphicsFamily(fs[i])) &&
              (exists i :: 0 <= i < |fs| && IsPresentFamily(fs[i]))
  {
    var n := ScanLength(fs);
    LastWhereFound(fs, Graphics, n);
    LastWhereFound(fs, Present, n);
    if n < |fs| {
      assert CompleteWithin(fs, n);
    } else {
      assert n == |fs|;
    }
  }

  /** Each found index names a family that qualifies for its role, and a role
      that no family qualifies for makes the scan run to the end and stay -1. */
  lemma QueueFamiliesRoles(fs: seq<QueueFamily>)
    ensures var q := QueueFamiliesOf(fs);
      && (q.graphicsFamily >= 0 ==> q.graphicsFamily < |fs| && IsGraphicsFamily(fs[q.graphicsFamily]))
      && (q.presentFamily >= 0 ==> q.presentFamily < |fs| && IsPresentFamily(fs[q.presentFamily]))
    ensures (forall i :: 0 <= i < |fs| ==> !IsGraphicsFamily(fs[i])) ==>
              ScanLength(fs) == |fs| && QueueFamiliesOf(fs).graphicsFamily == -1
    ensures (forall i :: 0 <= i < |fs| ==> !IsPresentFamily(fs[i])) ==>
              ScanLength(fs) == |fs| && QueueFamiliesOf(fs).presentFamily == -1
  {
    var n := ScanLength(fs);
    LastWhereFound(fs, Graphics, n);
    LastWhereFound(fs, Present, n);
  }

  /** The early stop: when the result is complete, the scan ended at the larger
      of the two indices (the family that completed the pair), and each field
      is the last qualifying family up to that point. */
  lemma {:induction false} QueueFamiliesEarlyStop(fs: seq<QueueFamily>)
    requires QueueFamiliesOf(fs).IsComplete()
    ensures var q := QueueFamiliesOf(fs);
      var k := if q.graphicsFamily < q.presentFamily then q.presentFamily else q.graphicsFamily;
      && ScanLength(fs) == k + 1
      && (forall j :: q.graphicsFamily < j <= k ==> !IsGraphicsFamily(fs[j]))
      && (forall j :: q.presentFamily < j <= k ==> !IsPresentFamily(fs[j]))
  {
    var n := ScanLength(fs);
    var q := QueueFamiliesOf(fs);
    assert n > 0;
    assert !CompleteWithin(fs, n - 1);
    LastWhereFound(fs, Graphics, n - 1);
    LastWhereFound(fs, Present, n - 1);
    if LastWhere(fs, Graphics, n - 1) < 0 {
      assert q.graphicsFamily == n - 1;
    } else {
      assert q.presentFamily == n - 1;
    }
  }

  // ---------------------------------------------------------------------------
  // checkDeviceExtensionSupport, checkValidationSupport

  predicate ExtensionsSupported(required: seq<string>, available: seq<string>) {
    forall e :: e in required ==> e in available
  }

  /** `checkDeviceExtensionSupport` (AppDevice.cpp:147-161): starts from the set
      of required names and erases every available one. */
  method CheckDeviceExtensionSupport(required: seq<string>, available: seq<string>) returns (r: bool)
    ensures r <==> ExtensionsSupported(required, available)
  {
    var remaining := set e | e in required;
    var i := 0;
    while i < |available|
      invariant 0 <= i <= |available|
      invariant remaining == (set e | e in required) - (set k | 0 <= k < i :: available[k])
    {
      remaining := remaining - {available[i]};
      i := i + 1;
    }
    r := remaining == {};
    if !r {
      var e :| e in remaining;
      assert e in required && e !in available;
    } else {
      forall e | e in required ensures e in available {
        assert e !in remaining;
      }
    }
  }

  /** `AppInstance::ValidationLayersNames` (AppDevice.h:36). */
  const ValidationLayersNames: seq<string> := ["VK_LAYER_KHRONOS_validation"]

  /** `checkValidationSupport` (AppDevice.cpp:297-320): every name of
      `ValidationLayersNames` must match (strcmp) one of the instance's layers,
      which for the single Khronos layer means that layer is available. */
  method CheckValidationSupport(availableLayers: seq<string>) returns (r: bool)
    ensures r <==> forall n :: n in ValidationLayersNames ==> n in availableLayers
    ensures r <==> "VK_LAYER_KHRONOS_validation" in availableLayers
  {
    var layerNames := ValidationLayersNames;
    var i := 0;
    while i < |layerNames|
      invariant 0 <= i <= |layerNames|
      invariant forall k :: 0 <= k < i ==> layerNames[k] in availableLayers
    {
      var name := layerNames[i];
      var layerFound := false;
      var j := 0;
      while j < |availableLayers|
        invariant 0 <= j <= |availableLayers|
        invariant layerFound ==> name in availableLayers
        invariant !layerFound ==> forall m :: 0 <= m < j ==> availableLayers[m] != name
      {
        if name == availableLayers[j] {
          layerFound := true;
          break;
        }
        j := j + 1;
      }
      if !layerFound {
        assert name !in availableLayers;
        return false;
      }
      i := i + 1;
    }
    return true;
  }

  // ---------------------------------------------------------------------------
  // isDeviceSuitable, getMaxUsableSampleCount, pickPhysicalDevice

  /** `isDeviceSuitable` (AppDevice.cpp:163-178); the swap-chain details are
      consulted only when the extensions are supported. */
  predicate IsDeviceSuitable(d: PhysicalDevice, required: seq<string>) {
    var indices := QueueFamiliesOf(d.queueFamilies);
    var extensionsSupported := ExtensionsSupported(required, d.extensions);
    var swapChainAdequate := if extensionsSupported then |d.formats| > 0 && |d.presentModes| > 0 else false;
    indices.IsComplete() && extensionsSupported && swapChainAdequate && d.samplerAnisotropy
  }

  /** The selection policy in terms of the device alone: a graphics family, a
      present family, every required extension, at least one surface format and
      present mode, and anisotropic sampling. */
  lemma SuitableIff(d: PhysicalDevice, required: seq<string>)
    ensures IsDeviceSuitable(d, required) <==>
      && (exists i :: 0 <= i < |d.queueFamilies| && IsGraphicsFamily(d.queueFamilies[i]))
      && (exists i :: 0 <= i < |d.queueFamilies| && IsPresentFamily(d.queueFamilies[i]))
      && (forall e :: e in required ==> e in d.extensions)
      && |d.formats| > 0 && |d.presentModes| > 0
      && d.samplerAnisotropy
  {
    QueueFamiliesComplete(d.queueFamilies);
  }

  /** The sample-count bits the if-chain tests, highest first. */
  const SampleCountBits: seq<bv32> :=
    [SAMPLE_COUNT_64_BIT, SAMPLE_COUNT_32_BIT, SAMPLE_COUNT_16_BIT,
     SAMPLE_COUNT_8_BIT, SAMPLE_COUNT_4_BIT, SAMPLE_COUNT_2_BIT]

  /** `getMaxUsableSampleCount` (AppDevice.cpp:132-145): the highest bit from 64
      down to 2 set in both the colour and the depth sample counts, else 1. */
  function GetMaxUsableSampleCount(d: PhysicalDevice): (r: bv32)
    ensures r == SAMPLE_COUNT_1_BIT || r in SampleCountBits
    ensures r in SampleCountBits ==>
              d.framebufferColorSampleCounts & r != 0 && d.framebufferDepthSampleCounts & r != 0
    ensures forall b :: b in SampleCountBits && b > r ==>
              d.framebufferColorSampleCounts & d.framebufferDepthSampleCounts & b == 0
  {
    var counts := d.framebufferColorSampleCounts & d.framebufferDepthSampleCounts;
    if counts & SAMPLE_COUNT_64_BIT != 0 then SAMPLE_COUNT_64_BIT
    else if counts & SAMPLE_COUNT_32_BIT != 0 then SAMPLE_COUNT_32_BIT
    else if counts & SAMPLE_COUNT_16_BIT != 0 then SAMPLE_COUNT_16_BIT
    else if counts & SAMPLE_COUNT_8_BIT != 0 then SAMPLE_COUNT_8_BIT
    else if counts & SAMPLE_COUNT_4_BIT != 0 then SAMPLE_COUNT_4_BIT
    else if counts & SAMPLE_COUNT_2_BIT != 0 then SAMPLE_COUNT_2_BIT
    else SAMPLE_COUNT_1_BIT
  }

  /** `VkDeviceQueueCreateInfo` as the program fills it (priority 1.0). */
  datatype QueueCreateInfo = QueueCreateInfo(queueFamilyIndex: int, queueCount: nat)

  /** The queue-create list of `createLogicalDevice` (AppDevice.cpp:51-64): one
      entry per element of the ordered `std::set` {graphics, present}. */
  function QueueCreateInfos(indices: QueueFamilyIndices): (infos: seq<QueueCreateInfo>)
    ensures |infos| == if indices.graphicsFamily == indices.presentFamily then 1 else 2
    ensures forall k :: 0 <= k < |infos| ==> infos[k].queueCount == 1
    ensures forall k, l :: 0 <= k < l < |infos| ==> infos[k].queueFamilyIndex < infos[l].queueFamilyIndex
    ensures forall k :: 0 <= k < |infos| ==>
              infos[k].queueFamilyIndex == indices.graphicsFamily || infos[k].queueFamilyIndex == indices.presentFamily
    ensures exists k :: 0 <= k < |infos| && infos[k].queueFamilyIndex == indices.graphicsFamily
    ensures exists k :: 0 <= k < |infos| && infos[k].queueFamilyIndex == indices.presentFamily
  {
    var g, p := indices.graphicsFamily, indices.presentFamily;
    if g == p then
      var infos := [QueueCreateInfo(g, 1)];
      assert infos[0].queueFamilyIndex == g == p;
      infos
    else if g < p then
      var infos := [QueueCreateInfo(g, 1), QueueCreateInfo(p, 1)];
      assert infos[0].queueFamilyIndex == g && infos[1].queueFamilyIndex == p;
      infos
    else
      var infos := [QueueCreateInfo(p, 1), QueueCreateInfo(g, 1)];
      assert infos[1].queueFamilyIndex == g && infos[0].queueFamilyIndex == p;
      infos
  }

  /** The device-selection state of `AppDevice` (AppDevice.h:76-113). */
  class AppDevice {
    /** Index of the chosen device in enumeration order; None is VK_NULL_HANDLE. */
    var physicalDevice: Option<nat>
    var deviceMsaaSamples: bv32
    var deviceQueueFamilyIndices: QueueFamilyIndices
    /** `FramebufferResized` has no initialiser (AppDevice.h:90), so its first
        value is whatever the storage held: a constructor argument here. */
    var framebufferResized: bool

    constructor (initialResized: bool)
      ensures physicalDevice == None
      ensures deviceMsaaSamples == SAMPLE_COUNT_1_BIT
      ensures deviceQueueFamilyIndices == DefaultQueueFamilyIndices()
      ensures framebufferResized == initialResized
    {
      physicalDevice := None;
      deviceMsaaSamples := SAMPLE_COUNT_1_BIT;
      deviceQueueFamilyIndices := DefaultQueueFamilyIndices();
      framebufferResized := initialResized;
    }

    /** `pickPhysicalDevice` (AppDevice.cpp:26-48): no devices throws; otherwise
        the first suitable device wins, and if none is suitable the handle stays
        null without an exception. */
    method PickPhysicalDevice(devices: seq<PhysicalDevice>, required: seq<string>) returns (r: Outcome)
      modifies this`physicalDevice, this`deviceMsaaSamples, this`deviceQueueFamilyIndices
      ensures r.Fail? <==> |devices| == 0
      ensures r.Fail? ==> r.error == NoVulkanDevices
      ensures physicalDevice.None? ==>
                && (forall k :: 0 <= k < |devices| ==> !IsDeviceSuitable(devices[k], required))
                && deviceMsaaSamples == old(deviceMsaaSamples)
                && deviceQueueFamilyIndices == old(deviceQueueFamilyIndices)
      ensures physicalDevice.Some? ==>
                && r.Pass?
                && physicalDevice.value < |devices|
                && IsDeviceSuitable(devices[physicalDevice.value], required)
                && (forall j :: 0 <= j < physicalDevice.value ==> !IsDeviceSuitable(devices[j], required))
                && deviceMsaaSamples == GetMaxUsableSampleCount(devices[physicalDevice.value])
                && deviceQueueFamilyIndices == QueueFamiliesOf(devices[physicalDevice.value].queueFamilies)
    {
      physicalDevice := None;
      if |devices| == 0 {
        return Fail(NoVulkanDevices);
      }
      var i := 0;
      while i < |devices|
        invariant 0 <= i <= |devices|
        invariant physicalDevice == None
        invariant deviceMsaaSamples == old(deviceMsaaSamples)
        invariant deviceQueueFamilyIndices == old(deviceQueueFamilyIndices)
        invariant forall j :: 0 <= j < i ==> !IsDeviceSuitable(devices[j], required)
      {
        if IsDeviceSuitable(devices[i], required) {
          physicalDevice := Some(i);
          deviceMsaaSamples := GetMaxUsableSampleCount(devices[i]);
          deviceQueueFamilyIndices := FindQueueFamilies(devices[i].queueFamilies);
          break;
        }
        i := i + 1;
      }
      return Pass;
    }
  }

  // ---------------------------------------------------------------------------
  // AppWindow::getWindowSize

  predicate InvalidDimension(n: int) {
    n == 0 || n > 50000
  }

  predicate ValidSize(size: (int, int)) {
    !InvalidDimension(size.0) && !InvalidDimension(size.1)
  }

  /** The value of (*width, *height) before the k-th loop test: the caller's
      initial values, then the successive framebuffer-size polls. */
  function Attempt(width0: int, height0: int, polls: seq<(int, int)>, k: nat): (int, int)
    requires k <= |polls|
  {
    if k == 0 then (width0, height0) else polls[k - 1]
  }

  /** `getWindowSize` (AppDevice.cpp:233-240): polls until both dimensions are
      non-zero and at most 50000 (negative values pass). The polls are the
      sizes GLFW reports; None means they ran out while the program would still
      be waiting. `polled` is how many polls were taken. */
  method GetWindowSize(width0: int, height0: int, polls: seq<(int, int)>)
    returns (size: Option<(int, int)>, polled: nat)
    ensures polled <= |polls|
    ensures forall k :: 0 <= k < polled ==> !ValidSize(Attempt(width0, height0, polls, k))
    ensures size.Some? ==> size.value == Attempt(width0, height0, polls, polled) && ValidSize(size.value)
    ensures size.None? ==> polled == |polls| && !ValidSize(Attempt(width0, height0, polls, polled))
  {
    var width, height := width0, height0;
    polled := 0;
    while InvalidDimension(width) || InvalidDimension(height)
      invariant polled <= |polls|
      invariant (width, height) == Attempt(width0, height0, polls, polled)
      invariant forall k :: 0 <= k < polled ==> !ValidSize(Attempt(width0, height0, polls, k))
      decreases |polls| - polled
    {
      if polled == |polls| {
        return None, polled;
      }
      width, height := polls[polled].0, polls[polled].1;
      polled := polled + 1;
    }
    size := Some((width, height));
  }
}
