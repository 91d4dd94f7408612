/** The frame scheduler of `App::drawFrame` (App.cpp:1143-1206) and the capture
    bookkeeping of `App::saveFrame` (App.cpp:1316-1393), driven by the main
    loop (App.cpp:94-100). The Vulkan calls are inputs: the acquire and
    present result codes, the image index the driver hands out, whether the
    submit succeeded, the surface a rebuild sees and the mapped bytes of the
    off-screen copy. Fence waits are no-ops. */
module Frames {
  import opened Vulkan
  import opened Swapchain
  import opened AppDevice
  import opened ImageWriter

  /** `_maxFramesInFlight`. */
  const MAX_FRAMES_IN_FLIGHT: nat := 2

  /** The capture counter stops the program when it reaches this value. */
  const LAST_IMAGE: nat := 1000

  /** An entry of `_imagesInFlight`: no fence yet, or the fence of a frame slot. */
  datatype FenceRef = NullFence | InFlightFence(slot: nat)

  predicate FenceInRange(f: FenceRef) {
    f.InFlightFence? ==> f.slot < MAX_FRAMES_IN_FLIGHT
  }

  /** What a rebuild of the swap chain sees: the surface's capabilities and
      the window size `getWindowSize` returns. */
  datatype Rebuild = Rebuild(caps: SurfaceCapabilities, windowSize: (int, int))

  /** Everything one `drawFrame` receives from outside. */
  datatype FrameInputs = FrameInputs(
    acquire: VkResult,
    imageIndex: nat,
    submitOk: bool,
    present: VkResult,
    rebuild: Rebuild,
    mapped: seq<bv8>)

  /** How a frame ends: presented, rebuilt after acquire or after present,
      an exception, or undefined behaviour the source does not guard
      (an image index past `_imagesInFlight`, a capture larger than the
      writer's buffer or the mapped memory). */
  datatype FrameResult =
    | Presented
    | RebuiltOnAcquire
    | RebuiltOnPresent
    | Failed(error: Error)
    | ImageIndexOutOfRange
    | CaptureOverrun

  predicate Rebuilt(r: FrameResult) {
    r.RebuiltOnAcquire? || r.RebuiltOnPresent?
  }

  /** The scheduler's part of a frame: the result, whether `saveFrame` runs,
      and the new `_currentFrame`, `_imagesInFlight` and resize flag. */
  datatype Plan = Plan(
    result: FrameResult,
    capture: bool,
    currentFrame: int,
    imagesInFlight: seq<FenceRef>,
    resized: bool)

  /** The decisions of `drawFrame`. A rebuild resets `_currentFrame` to 0 (in
      `createFramebuffers`, App.cpp:550); after a rebuild on present the
      frame still advances, to slot 1. */
  function PlanFrame(currentFrame: nat, fences: seq<FenceRef>, resized: bool, f: FrameInputs): Plan {
    if f.acquire == OutOfDate then
      Plan(RebuiltOnAcquire, false, 0, fences, resized)
    else if f.acquire != Success && f.acquire != Suboptimal then
      Plan(Failed(AcquireFailed), false, currentFrame, fences, resized)
    else if f.imageIndex >= |fences| then
      Plan(ImageIndexOutOfRange, false, currentFrame, fences, resized)
    else
      var capture := fences[f.imageIndex] != NullFence;
      var marked := fences[f.imageIndex := InFlightFence(currentFrame)];
      if !f.submitOk then
        Plan(Failed(SubmitFailed), capture, currentFrame, marked, resized)
      else if f.present == OutOfDate || f.present == Suboptimal || resized then
        Plan(RebuiltOnPresent, capture, (0 + 1) % MAX_FRAMES_IN_FLIGHT, marked, false)
      else if f.present != Success then
        Plan(Failed(PresentFailed), capture, currentFrame, marked, resized)
      else
        Plan(Presented, capture, (currentFrame + 1) % MAX_FRAMES_IN_FLIGHT, marked, resized)
  }

  /** `_currentFrame` stays a valid frame slot, and every fence recorded in
      `_imagesInFlight` belongs to a frame slot. */
  lemma PlanKeepsSlots(currentFrame: nat, fences: seq<FenceRef>, resized: bool, f: FrameInputs)
    requires 0 <= currentFrame < MAX_FRAMES_IN_FLIGHT
    requires forall k :: 0 <= k < |fences| ==> FenceInRange(fences[k])
    ensures var p := PlanFrame(currentFrame, fences, resized, f);
      && 0 <= p.currentFrame < MAX_FRAMES_IN_FLIGHT
      && |p.imagesInFlight| == |fences|
      && forall k :: 0 <= k < |p.imagesInFlight| ==> FenceInRange(p.imagesInFlight[k])
  {
  }

  /** An out-of-date acquire rebuilds and returns: nothing is captured,
      marked or submitted, and the frame slot restarts at 0. */
  lemma PlanAcquireOutOfDate(currentFrame: nat, fences: seq<FenceRef>, resized: bool, f: FrameInputs)
    requires f.acquire == OutOfDate
    ensures var p := PlanFrame(currentFrame, fences, resized, f);
      p.result == RebuiltOnAcquire && !p.capture && p.currentFrame == 0 &&
      p.imagesInFlight == fences && p.resized == resized
  {
  }

  /** After a successful or suboptimal acquire of an image `_imagesInFlight`
      covers, that entry, and only that one, is set to the current slot's
      fence, and `saveFrame` runs exactly when the entry already held one. */
  lemma PlanMarksImage(currentFrame: nat, fences: seq<FenceRef>, resized: bool, f: FrameInputs)
    requires f.acquire == Success || f.acquire == Suboptimal
    requires f.imageIndex < |fences|
    ensures var p := PlanFrame(currentFrame, fences, resized, f);
      && |p.imagesInFlight| == |fences|
      && p.imagesInFlight[f.imageIndex] == InFlightFence(currentFrame)
      && (forall k :: 0 <= k < |fences| && k != f.imageIndex ==> p.imagesInFlight[k] == fences[k])
      && (p.capture <==> fences[f.imageIndex] != NullFence)
  {
  }

  /** Only a frame that acquired an image already in flight captures, and
      the frame slot advances only when the frame was presented or rebuilt
      on present. */
  lemma PlanCaptureAndAdvance(currentFrame: nat, fences: seq<FenceRef>, resized: bool, f: FrameInputs)
    ensures var p := PlanFrame(currentFrame, fences, resized, f);
      && (p.capture ==> (f.acquire == Success || f.acquire == Suboptimal) &&
                        f.imageIndex < |fences| && fences[f.imageIndex] != NullFence)
      && (p.result == Presented ==> p.currentFrame == (currentFrame + 1) % MAX_FRAMES_IN_FLIGHT)
      && (p.result == RebuiltOnPresent ==> p.currentFrame == 1 && !p.resized)
      && (p.result.Failed? ==> p.currentFrame == currentFrame)
      && (p.resized != resized ==> p.result == RebuiltOnPresent)
  {
  }

  /** A present that reports out of date or suboptimal, or a raised resize
      flag, ends the frame in a rebuild once the submit succeeded. */
  lemma PlanRebuildsOnPresent(currentFrame: nat, fences: seq<FenceRef>, resized: bool, f: FrameInputs)
    requires f.acquire == Success || f.acquire == Suboptimal
    requires f.imageIndex < |fences| && f.submitOk
    ensures PlanFrame(currentFrame, fences, resized, f).result == RebuiltOnPresent <==>
              f.present == OutOfDate || f.present == Suboptimal || resized
  {
  }

  /** `static_cast<size_t>(width * height * 4)` on uint32 operands. */
  function CaptureBytes(e: Extent2D): (n: uint32)
    ensures e.width * e.height * 4 <= UINT32_MAX ==> n == e.width * e.height * 4
  {
    ToU32(e.width * e.height * 4)
  }

  /** The copy stays inside the writer's buffer and the mapped memory. */
  predicate CaptureFits(e: Extent2D, mapped: seq<bv8>) {
    CaptureBytes(e) <= BUFFER_BYTES && CaptureBytes(e) <= |mapped|
  }

  /** An extent of at most 1920x1080 pixels always fits the writer's buffer. */
  lemma FullHdFits(e: Extent2D, mapped: seq<bv8>)
    requires e.width * e.height <= 1920 * 1080
    requires e.width * e.height * 4 <= |mapped|
    ensures CaptureFits(e, mapped)
    ensures CaptureBytes(e) == e.width * e.height * 4
  {
    assert e.width * e.height * 4 <= BUFFER_BYTES;
  }

  /** The uint32-to-int conversion of `Width = width` on a two's-complement
      32-bit int. */
  function ToI32(x: uint32): (r: int)
    ensures -0x8000_0000 <= r < 0x8000_0000
    ensures ToU32(r) == x
  {
    if x < 0x8000_0000 then x else x - 0x1_0000_0000
  }

  /** Captures numbered 1, 2, 3, … in order (as `Renderer.Valid` keeps them)
      are written to "images/img1.bmp", "images/img2.bmp", …, and no two of
      them to the same file. */
  lemma CaptureFilesDistinct(jobs: seq<Capture>)
    requires forall k :: 0 <= k < |jobs| ==> jobs[k].index == k + 1
    ensures forall k :: 0 <= k < |jobs| ==> Work(jobs[k]).filename == Filename(k + 1)
    ensures forall j, k :: 0 <= j < k < |jobs| ==> Work(jobs[j]).filename != Work(jobs[k]).filename
  {
    forall j, k | 0 <= j < k < |jobs|
      ensures Work(jobs[j]).filename != Work(jobs[k]).filename
    {
      WorkFilenames(jobs[j], jobs[k]);
    }
  }

  /** `jobs` is `before` with one capture appended: numbered `image`, with
      the extent as ints, 4 components, and the buffer starting with the
      width * height * 4 mapped bytes. */
  predicate CaptureAppended(jobs: seq<Capture>, before: seq<Capture>, image: int, extent: Extent2D, mapped: seq<bv8>) {
    && |jobs| == |before| + 1
    && jobs[..|before|] == before
    && var c := jobs[|before|];
       var n := CaptureBytes(extent);
       && c.index == image
       && c.width == ToI32(extent.width) && c.height == ToI32(extent.height)
       && c.comp == 4
       && |c.data| == BUFFER_BYTES && n <= |mapped| && n <= |c.data| && c.data[..n] == mapped[..n]
  }

  /** The writes of `saveFrame` into the slot's record (App.cpp:1377-1385):
      the counter, the extent as ints, 4 components and the first
      width * height * 4 mapped bytes. */
  method FillRecord(d: WriterData, image: int, extent: Extent2D, mapped: seq<bv8>)
    requires d.buffer.Length == BUFFER_BYTES && CaptureFits(extent, mapped)
    modifies d, d.buffer
    ensures var c := Snapshot(d);
      var n := CaptureBytes(extent);
      && c.index == image
      && c.width == ToI32(extent.width) && c.height == ToI32(extent.height)
      && c.comp == 4
      && |c.data| == BUFFER_BYTES && c.data[..n] == mapped[..n]
  {
    var n := CaptureBytes(extent);
    d.index := image;
    d.width := ToI32(extent.width);
    d.height := ToI32(extent.height);
    d.comp := 4;
    forall k | 0 <= k < n {
      d.buffer[k] := mapped[k];
    }
    assert d.buffer[..n] == mapped[..n];
  }

  /** The writer's part of `saveFrame` (App.cpp:1377-1389): take the next
      slot, fill its record and start a worker on it. The slot's worker was
      joined by `getNext`, so the worker starts. */
  method RecordCapture(w: ImageWriter, image: int, extent: Extent2D, mapped: seq<bv8>)
    requires w.Valid() && CaptureFits(extent, mapped)
    modifies w.Repr
    ensures w.Valid() && w.Repr == old(w.Repr) && w.data == old(w.data)
    ensures CaptureAppended(w.jobs, old(w.jobs), image, extent, mapped)
    ensures w.threadIndex == (old(w.threadIndex) + 1) % MAX_THREADS
    ensures w.threads == old(w.threads)[w.threadIndex := true]
    ensures Slots(w.data) == old(Slots(w.data))[w.threadIndex := w.jobs[|old(w.jobs)|]]
  {
    ghost var before := Slots(w.data);
    var d := w.GetNext();
    FillRecord(d, image, extent, mapped);
    forall k | 0 <= k < MAX_THREADS && k != w.threadIndex
      ensures Slots(w.data)[k] == before[k]
    {
      assert w.data[k] != d && w.data[k].buffer != d.buffer;
    }
    ghost var filled := Snapshot(d);
    assert Slots(w.data) == before[w.threadIndex := filled];
    var started := w.Write();
    assert started == Started;
    assert Slots(w.data) == before[w.threadIndex := filled];
    assert w.jobs == old(w.jobs) + [filled];
  }

  /** The parts of `App` the frame loop touches. */
  class Renderer {
    var currentFrame: nat
    var currentImage: int
    var swapchainExtent: Extent2D
    var windowShouldClose: bool
    /** `_imagesInFlight`: sized by `createSyncObjects` and never resized. */
    const imagesInFlight: array<FenceRef>
    const device: AppDevice
    const writer: ImageWriter

    /** The frame slot is valid; fences belong to frame slots; the captures
        so far are numbered 1, 2, 3, … with 4 components; the window is
        asked to close once the counter reaches 1000. */
    ghost predicate Valid()
      reads this, imagesInFlight, writer
    {
      && writer.Valid()
      && this !in writer.Repr && imagesInFlight !in writer.Repr && device !in writer.Repr
      && 0 <= currentFrame < MAX_FRAMES_IN_FLIGHT
      && (forall k :: 0 <= k < imagesInFlight.Length ==> FenceInRange(imagesInFlight[k]))
      && 1 <= currentImage
      && |writer.jobs| == currentImage - 1
      && (forall k :: 0 <= k < |writer.jobs| ==> writer.jobs[k].index == k + 1 && writer.jobs[k].comp == 4)
      && (windowShouldClose <==> currentImage >= LAST_IMAGE)
    }

    /** The state after `initVulkan`: the first swap chain has
        `imageCount` images of the given extent, no image is in flight, the
        frame slot is 0 and the capture counter 1. */
    constructor (imageCount: nat, extent: Extent2D, initialResized: bool)
      ensures Valid()
      ensures fresh(imagesInFlight) && fresh(device) && fresh(writer) && fresh(writer.Repr)
      ensures imagesInFlight.Length == imageCount
      ensures forall k :: 0 <= k < imageCount ==> imagesInFlight[k] == NullFence
      ensures currentFrame == 0 && currentImage == 1 && !windowShouldClose
      ensures swapchainExtent == extent && writer.jobs == []
      ensures device.framebufferResized == initialResized
    {
      imagesInFlight := new FenceRef[imageCount](_ => NullFence);
      device := new AppDevice(initialResized);
      writer := new ImageWriter();
      swapchainExtent := extent;
      currentFrame := 0;
      currentImage := 1;
      windowShouldClose := false;
    }

    /** `recreateSwapchain`: the new extent is chosen from what the rebuild
        sees, and `createFramebuffers` resets the frame slot. */
    method RecreateSwapchain(rb: Rebuild)
      requires Valid()
      modifies this`currentFrame, this`swapchainExtent
      ensures Valid()
      ensures currentFrame == 0
      ensures swapchainExtent == ChooseSwapExtent(rb.caps, rb.windowSize)
    {
      swapchainExtent := ChooseSwapExtent(rb.caps, rb.windowSize);
      currentFrame := 0;
    }

    /** `saveFrame`: the next writer slot gets the counter's value (which is
        then incremented), the swap-chain extent, 4 components and a copy of
        `width * height * 4` mapped bytes; a worker is started on it, and the
        window is asked to close when the counter reaches 1000. A capture that
        does not fit is undefined behaviour in the source; here it changes
        nothing and reports false. */
    method SaveFrame(mapped: seq<bv8>) returns (ok: bool)
      requires Valid()
      modifies this`currentImage, this`windowShouldClose, writer.Repr
      ensures Valid() && writer.Repr == old(writer.Repr) && writer.data == old(writer.data)
      ensures ok <==> CaptureFits(swapchainExtent, mapped)
      ensures !ok ==>
        && currentImage == old(currentImage) && windowShouldClose == old(windowShouldClose)
        && writer.jobs == old(writer.jobs)
        && writer.threadIndex == old(writer.threadIndex) && writer.threads == old(writer.threads)
        && Slots(writer.data) == old(Slots(writer.data))
      ensures ok ==>
        && currentImage == old(currentImage) + 1
        && CaptureAppended(writer.jobs, old(writer.jobs), old(currentImage), swapchainExtent, mapped)
        && writer.threadIndex == (old(writer.threadIndex) + 1) % MAX_THREADS
        && writer.threads == old(writer.threads)[writer.threadIndex := true]
        && Slots(writer.data) == old(Slots(writer.data))[writer.threadIndex := writer.jobs[|old(writer.jobs)|]]
    {
      var n := CaptureBytes(swapchainExtent);
      if !(n <= BUFFER_BYTES && n <= |mapped|) {
        return false;
      }
      RecordCapture(writer, currentImage, swapchainExtent, mapped);
      currentImage := currentImage + 1;
      if currentImage == LAST_IMAGE {
        windowShouldClose := true;
      }
      return true;
    }

    /** `drawFrame`: the scheduler's decisions are `PlanFrame`'s; a capture
        runs before the fence is recorded, a rebuild chooses the new extent. */
    method DrawFrame(f: FrameInputs) returns (r: FrameResult)
      requires Valid()
      modifies this, imagesInFlight, device`framebufferResized, writer.Repr
      ensures Valid() && writer.Repr == old(writer.Repr) && writer.data == old(writer.data)
      ensures writer.threadIndex == (old(writer.threadIndex) + |writer.jobs| - |old(writer.jobs)|) % MAX_THREADS
      ensures var p := PlanFrame(old(currentFrame), old(imagesInFlight[..]), old(device.framebufferResized), f);
        && (r == CaptureOverrun <==> p.capture && !CaptureFits(old(swapchainExtent), f.mapped))
        && (r == CaptureOverrun ==>
              && currentFrame == old(currentFrame) && imagesInFlight[..] == old(imagesInFlight[..])
              && device.framebufferResized == old(device.framebufferResized)
              && currentImage == old(currentImage) && writer.jobs == old(writer.jobs)
              && swapchainExtent == old(swapchainExtent))
        && (r != CaptureOverrun ==>
              && r == p.result
              && currentFrame == p.currentFrame
              && imagesInFlight[..] == p.imagesInFlight
              && device.framebufferResized == p.resized
              && swapchainExtent == (if Rebuilt(p.result) then ChooseSwapExtent(f.rebuild.caps, f.rebuild.windowSize)
                                     else old(swapchainExtent))
              && (p.capture ==> CaptureAppended(writer.jobs, old(writer.jobs), old(currentImage),
                                                old(swapchainExtent), f.mapped))
              && (!p.capture ==> writer.jobs == old(writer.jobs)))
      ensures var p := PlanFrame(old(currentFrame), old(imagesInFlight[..]), old(device.framebufferResized), f);
        && (!p.capture || r == CaptureOverrun ==>
              && writer.threadIndex == old(writer.threadIndex) && writer.threads == old(writer.threads)
              && Slots(writer.data) == old(Slots(writer.data)))
        && (p.capture && r != CaptureOverrun ==>
              && writer.threadIndex == (old(writer.threadIndex) + 1) % MAX_THREADS
              && writer.threads == old(writer.threads)[writer.threadIndex := true]
              && Slots(writer.data) == old(Slots(writer.data))[writer.threadIndex := writer.jobs[|old(writer.jobs)|]])
    {
      if f.acquire == OutOfDate {
        RecreateSwapchain(f.rebuild);
        return RebuiltOnAcquire;
      } else if f.acquire != Success && f.acquire != Suboptimal {
        return Failed(AcquireFailed);
      }
      if f.imageIndex >= imagesInFlight.Length {
        return ImageIndexOutOfRange;
      }
      r := RenderAcquired(f);
    }

    /** The rest of `drawFrame` once an image the array covers was acquired:
        capture if the image is still in flight, record the slot's fence,
        submit and present. */
    method RenderAcquired(f: FrameInputs) returns (r: FrameResult)
      requires Valid()
      requires f.acquire == Success || f.acquire == Suboptimal
      requires f.imageIndex < imagesInFlight.Length
      modifies this, imagesInFlight, device`framebufferResized, writer.Repr
      ensures Valid() && writer.Repr == old(writer.Repr) && writer.data == old(writer.data)
      ensures var p := PlanFrame(old(currentFrame), old(imagesInFlight[..]), old(device.framebufferResized), f);
        && (r == CaptureOverrun <==> p.capture && !CaptureFits(old(swapchainExtent), f.mapped))
        && (r == CaptureOverrun ==>
              && currentFrame == old(currentFrame) && imagesInFlight[..] == old(imagesInFlight[..])
              && device.framebufferResized == old(device.framebufferResized)
              && currentImage == old(currentImage) && writer.jobs == old(writer.jobs)
              && swapchainExtent == old(swapchainExtent))
        && (r != CaptureOverrun ==>
              && r == p.result
              && currentFrame == p.currentFrame
              && imagesInFlight[..] == p.imagesInFlight
              && device.framebufferResized == p.resized
              && swapchainExtent == (if Rebuilt(p.result) then ChooseSwapExtent(f.rebuild.caps, f.rebuild.windowSize)
                                     else old(swapchainExtent))
              && (p.capture ==> CaptureAppended(writer.jobs, old(writer.jobs), old(currentImage),
                                                old(swapchainExtent), f.mapped))
              && (!p.capture ==> writer.jobs == old(writer.jobs)))
      ensures var p := PlanFrame(old(currentFrame), old(imagesInFlight[..]), old(device.framebufferResized), f);
        && (!p.capture || r == CaptureOverrun ==>
              && writer.threadIndex == old(writer.threadIndex) && writer.threads == old(writer.threads)
              && Slots(writer.data) == old(Slots(writer.data)))
        && (p.capture && r != CaptureOverrun ==>
              && writer.threadIndex == (old(writer.threadIndex) + 1) % MAX_THREADS
              && writer.threads == old(writer.threads)[writer.threadIndex := true]
              && Slots(writer.data) == old(Slots(writer.data))[writer.threadIndex := writer.jobs[|old(writer.jobs)|]])
    {
      var ok := CaptureIfInFlight(f);
      if !ok {
        return CaptureOverrun;
      }
      r := SubmitAndPresent(f);
    }

    /** The capture step of `drawFrame` (App.cpp:1156-1159): an image that
        still holds a fence is saved before it is reused. */
    method CaptureIfInFlight(f: FrameInputs) returns (ok: bool)
      requires Valid()
      requires f.imageIndex < imagesInFlight.Length
      modifies this`currentImage, this`windowShouldClose, writer.Repr
      ensures Valid() && writer.Repr == old(writer.Repr) && writer.data == old(writer.data)
      ensures var capture := imagesInFlight[f.imageIndex] != NullFence;
        && (ok <==> !capture || CaptureFits(swapchainExtent, f.mapped))
        && (!capture || !ok ==>
              && currentImage == old(currentImage) && windowShouldClose == old(windowShouldClose)
              && writer.jobs == old(writer.jobs)
              && writer.threadIndex == old(writer.threadIndex) && writer.threads == old(writer.threads)
              && Slots(writer.data) == old(Slots(writer.data)))
        && (capture && ok ==>
              && CaptureAppended(writer.jobs, old(writer.jobs), old(currentImage), swapchainExtent, f.mapped)
              && writer.threadIndex == (old(writer.threadIndex) + 1) % MAX_THREADS
              && writer.threads == old(writer.threads)[writer.threadIndex := true]
              && Slots(writer.data) == old(Slots(writer.data))[writer.threadIndex := writer.jobs[|old(writer.jobs)|]])
    {
      ok := true;
      if imagesInFlight[f.imageIndex] != NullFence {
        ok := SaveFrame(f.mapped);
      }
    }

    /** The rest of `drawFrame` (App.cpp:1161-1205): record the slot's fence
        for the image, submit, and present. */
    method SubmitAndPresent(f: FrameInputs) returns (r: FrameResult)
      requires Valid()
      requires f.acquire == Success || f.acquire == Suboptimal
      requires f.imageIndex < imagesInFlight.Length
      modifies this`currentFrame, this`swapchainExtent, imagesInFlight, device`framebufferResized
      ensures Valid()
      ensures var p := PlanFrame(old(currentFrame), old(imagesInFlight[..]), old(device.framebufferResized), f);
        && r == p.result
        && currentFrame == p.currentFrame
        && imagesInFlight[..] == p.imagesInFlight
        && device.framebufferResized == p.resized
        && swapchainExtent == (if Rebuilt(p.result) then ChooseSwapExtent(f.rebuild.caps, f.rebuild.windowSize)
                               else old(swapchainExtent))
    {
      imagesInFlight[f.imageIndex] := InFlightFence(currentFrame);
      if !f.submitOk {
        return Failed(SubmitFailed);
      }
      r := PresentFrame(f);
    }

    /** The end of `drawFrame` after a successful submit: a present that is
        out of date or suboptimal, or a raised resize flag, clears the flag
        and rebuilds; another failure throws; then the frame slot advances. */
    method PresentFrame(f: FrameInputs) returns (r: FrameResult)
      requires Valid()
      modifies this`currentFrame, this`swapchainExtent, device`framebufferResized
      ensures Valid()
      ensures var rebuild := f.present == OutOfDate || f.present == Suboptimal || old(device.framebufferResized);
        && (rebuild ==>
              && r == RebuiltOnPresent && currentFrame == 1 && !device.framebufferResized
              && swapchainExtent == ChooseSwapExtent(f.rebuild.caps, f.rebuild.windowSize))
        && (!rebuild && f.present != Success ==>
              && r == Failed(PresentFailed) && currentFrame == old(currentFrame)
              && device.framebufferResized == old(device.framebufferResized)
              && swapchainExtent == old(swapchainExtent))
        && (!rebuild && f.present == Success ==>
              && r == Presented && currentFrame == (old(currentFrame) + 1) % MAX_FRAMES_IN_FLIGHT
              && device.framebufferResized == old(device.framebufferResized)
              && swapchainExtent == old(swapchainExtent))
    {
      var resized := device.framebufferResized;
      if f.present == OutOfDate || f.present == Suboptimal || resized {
        device.framebufferResized := false;
        RecreateSwapchain(f.rebuild);
      } else if f.present != Success {
        return Failed(PresentFailed);
      }
      currentFrame := (currentFrame + 1) % MAX_FRAMES_IN_FLIGHT;
      return if resized || f.present != Success then RebuiltOnPresent else Presented;
    }

    /** `mainLoop`: frames are drawn while the window is not asked to close;
        an exception or undefined behaviour ends the loop, and so does the
        end of the inputs. Starting from fewer than 999 captures, the loop
        never records more than 999, and the window closes exactly when the
        999th is recorded. */
    method MainLoop(frames: seq<FrameInputs>) returns (drawn: nat, last: Option<FrameResult>)
      requires Valid()
      modifies this, imagesInFlight, device`framebufferResized, writer.Repr
      ensures Valid() && writer.Repr == old(writer.Repr)
      ensures drawn <= |frames|
      ensures last.None? ==> windowShouldClose || drawn == |frames|
      ensures last.Some? ==> !Continues(last.value)
      ensures |old(writer.jobs)| <= |writer.jobs| && writer.jobs[..|old(writer.jobs)|] == old(writer.jobs)
      ensures writer.data == old(writer.data)
      ensures writer.threadIndex == (old(writer.threadIndex) + |writer.jobs| - |old(writer.jobs)|) % MAX_THREADS
      ensures |old(writer.jobs)| <= LAST_IMAGE - 1 ==> |writer.jobs| <= LAST_IMAGE - 1
      ensures windowShouldClose <==> |writer.jobs| >= LAST_IMAGE - 1
    {
      drawn := 0;
      last := None;
      ghost var start := |writer.jobs|;
      while !windowShouldClose && drawn < |frames|
        invariant Valid() && writer.Repr == old(writer.Repr)
        invariant drawn <= |frames|
        invariant start <= LAST_IMAGE - 1 ==> |writer.jobs| <= LAST_IMAGE - 1
        invariant start <= |writer.jobs| && writer.jobs[..start] == old(writer.jobs)
        invariant writer.data == old(writer.data)
        invariant writer.threadIndex == (old(writer.threadIndex) + |writer.jobs| - start) % MAX_THREADS
        decreases |frames| - drawn
      {
        ghost var count := |writer.jobs|;
        var r := DrawFrame(frames[drawn]);
        RingIndexAdvance(old(writer.threadIndex), count - start, |writer.jobs| - count);
        drawn := drawn + 1;
        if !Continues(r) {
          return drawn, Some(r);
        }
      }
    }
  }

  /** Advancing the ring by n slots and then by m is advancing it by n + m. */
  lemma RingIndexAdvance(a: int, n: int, m: int)
    ensures ((a + n) % MAX_THREADS + m) % MAX_THREADS == (a + n + m) % MAX_THREADS
  {
  }

  /** The frame ends that let the loop draw another frame. */
  predicate Continues(r: FrameResult) {
    r == Presented || Rebuilt(r)
  }
}
