# Decision procedures and bookkeeping of a Vulkan model viewer

The renderer (App.cpp, AppDevice.cpp, ImageWriter.h/.cpp) draws a textured
model, captures frames off-screen and writes them to BMP files on worker
threads. Most of its code consists of Vulkan, GLFW and stb calls. This
project models the logic beneath those calls and proves what the code
promises:

- **device selection**: the queue-family scan with its early stop, the
  extension and validation-layer checks, the suitability test, the
  first-suitable device pick, the MSAA sample count, one queue per distinct
  family, and the window-size wait;
- **swap-chain negotiation**: surface format, present mode, extent (a
  sentinel value and clamping), image count (uint32 arithmetic, capped) and
  sharing mode;
- **images**: the depth-format and memory-type searches, the stencil test,
  the two-row layout-transition table, the mip-level count (integer
  floor-log2) and the barrier/blit plan of `generateMipmaps`. Each recorded
  command is checked against a state machine over the layout of each mip
  level;
- **the `Vertex` record**: equality, hash, vertex-input descriptions, and
  the deduplication loop of `loadModel`;
- **the capture writer**: a ring of 100 slots with join-before-reuse, where
  threads are modelled as busy flags, and the deterministic file name;
- **the frame scheduler** of `drawFrame`: `_currentFrame` and
  `_imagesInFlight`, with result codes as inputs. Also the capture counter of
  `saveFrame` and the main loop.

A module per source component: `Vulkan` (API enumerations, `uint32`,
`Result`), `AppDeviceTypes` (AppDevice.h), `AppDevice`, `Swapchain`,
`Images`, `VertexModel`, `Mesh`, `ImageWriter`, `Frames`. Operations that
loop or change state in the source are methods: loops with invariants,
classes with `modifies`. Each is proved against a specification function,
and lemmas state the properties of that function. Inputs from outside the
program are parameters:

- results of Vulkan queries: queue families, formats, memory types, result
  codes;
- GLFW window sizes;
- mapped memory.

Facts about the code that the model makes explicit:

- A 512×256 texture gets floor(log2 512) + 1 = **10** mip levels
  (`Images.MipLevelsExamples`).
- The capture counter starts at 1, and the window is asked to close when it
  reaches 1000. A run therefore writes **999** files, img1 … img999
  (`Frames.Renderer.MainLoop`, `Frames.CaptureFilesDistinct`).
- Two frames are in flight (`_maxFramesInFlight = 2`).
- A rebuild after present resets `_currentFrame` to 0 inside
  `createFramebuffers`. The unconditional increment at the end of `drawFrame`
  then makes it 1 (`Frames.PlanCaptureAndAdvance`).
- The GLFW resize callback sets `AppWindow::Resized`. `drawFrame` reads a
  different flag, `AppDevice::FramebufferResized`, which has no initialiser
  and is only ever cleared. The model gives that flag an arbitrary initial
  value (`AppDevice.AppDevice.constructor`), and
  `AppDeviceTypes.AppWindow.FramebufferResizeCallback` touches only the
  window's flag.

## Model

| member | source | states |
|---|---|---|
| `AppDeviceTypes.DefaultQueueFamilyIndices` | AppDevice.h:15-22 | both families are -1, so a default value is not complete |
| `AppDeviceTypes.AppWindow.constructor` | AppDevice.h:115-135 | the window is 800×600 and `Resized` starts false |
| `AppDeviceTypes.AppWindow.FramebufferResizeCallback` | AppDevice.cpp:205-208 | the callback raises the window's own `Resized` flag and nothing else |
| `AppDevice.LastWhere` | AppDevice.cpp:102-118 | the largest index below the bound qualifying for a role (queueCount > 0 and graphics bit, or present support), or -1; nothing above it qualifies |
| `AppDevice.LastWhereFound` | AppDevice.cpp:102-118 | a role's index is set within a prefix iff some family of the prefix qualifies for it |
| `AppDevice.ScanLength` | AppDevice.cpp:99-120 | the scan stops right after the first prefix holding both roles, or runs to the end of the list |
| `AppDevice.ScanStops` | AppDevice.cpp:114-116 | the first index at which the indices become complete ends the scan there |
| `AppDevice.FindQueueFamilies` | AppDevice.cpp:93-121 | the loop returns exactly the last qualifying graphics and present indices of the scanned prefix |
| `AppDevice.QueueFamiliesComplete` | AppDevice.cpp:93-121 | the result is complete iff the device has a graphics-capable family and a present-capable family somewhere |
| `AppDevice.QueueFamiliesRoles` | AppDevice.cpp:93-121 | each found index names a qualifying family; a role nobody qualifies for makes the scan cover the whole list and leaves -1 |
| `AppDevice.QueueFamiliesEarlyStop` | AppDevice.cpp:102-118 | on a complete result the scan ended at the larger index, and each field is the last qualifying index up to it |
| `AppDevice.CheckDeviceExtensionSupport` | AppDevice.cpp:147-161 | erasing the available names from the required set leaves it empty iff every required extension is available |
| `AppDevice.CheckValidationSupport` | AppDevice.cpp:297-320 | true iff every name of `ValidationLayersNames` (AppDevice.h:36) matches one of the instance's layers, that is iff the Khronos validation layer is available |
| `AppDevice.SuitableIff` | AppDevice.cpp:163-178 | suitable iff graphics and present families exist, all extensions are supported, formats and present modes are non-empty and anisotropy is supported |
| `AppDevice.GetMaxUsableSampleCount` | AppDevice.cpp:132-145 | the highest of 64…2 set in both the colour and depth counts (no higher bit is shared), else 1 |
| `AppDevice.QueueCreateInfos` | AppDevice.cpp:51-64 | one entry per distinct family, in ascending order (one when graphics equals present, else two), each with one queue, covering both families |
| `AppDevice.AppDevice.constructor` | AppDevice.h:76-91 | no device picked, MSAA samples 1, default family indices |
| `AppDevice.AppDevice.PickPhysicalDevice` | AppDevice.cpp:26-48 | no devices throws; otherwise the first suitable device is picked with its sample count and families; if none is suitable the handle stays null and nothing is thrown |
| `AppDevice.GetWindowSize` | AppDevice.cpp:233-240 | returns only a size with both dimensions non-zero and at most 50000, the first such among the initial value and the polls |
| `Swapchain.ChooseSwapSurfaceFormat` | App.cpp:129-141 | the loop's result is the surface-format policy `SurfaceFormatFor` |
| `Swapchain.SurfaceFormatChoice` | App.cpp:129-141 | the preferred BGRA8/sRGB format whenever it is offered or the surface has no preference; otherwise the first entry, which is offered |
| `Swapchain.ChooseSwapPresentMode` | App.cpp:143-155 | the loop's result is the policy mailbox, else immediate, else FIFO |
| `Swapchain.PresentModeChoice` | App.cpp:143-155 | the mode is offered or FIFO; FIFO exactly when neither mailbox nor immediate is offered; immediate only without mailbox |
| `Swapchain.ChooseSwapExtent` | App.cpp:158-175 | the current extent unless its width is UINT32_MAX; otherwise each dimension is at least the minimum, at most the maximum when min ≤ max, and the window size when that lies in range |
| `Swapchain.ChooseSwapExtentIdempotent` | App.cpp:165-171 | choosing again from a chosen extent gives the same extent |
| `Swapchain.ChooseSwapExtentExample` | App.cpp:165-171 | with minimum 100×100 and maximum 4096×4096 a 8000×50 window gives 4096×100 |
| `Swapchain.NegativeWindowSizeClampsToMax` | App.cpp:165-170 | a negative window width wraps to a huge uint32 and is clamped to the maximum |
| `Swapchain.ImageCount` | App.cpp:184-187 | minImageCount + 1 capped by a non-zero maximum; with minImageCount = UINT32_MAX the uint32 sum wraps to 0 |
| `Swapchain.ImageCountInRange` | App.cpp:184-187 | under Vulkan's guarantees on the capabilities, the count lies within [min, max] and is at least 1 |
| `Swapchain.SharingFor` | App.cpp:199-210 | concurrent iff the families differ, then listing both as distinct uint32 indices; exclusive with no list otherwise |
| `Swapchain.CreateSwapchainInfo` | App.cpp:177-216 | every chosen field of the create info is the corresponding policy's value, with one array layer and clipping on |
| `Images.FirstSupportedFrom` | App.cpp:574-582 | the first candidate from position i whose properties support the features for linear or optimal tiling, or the failure when none does |
| `Images.FindSupportedFormat` | App.cpp:573-585 | the first supporting candidate; throws exactly when no candidate supports the features |
| `Images.OtherTilingFails` | App.cpp:578-584 | a tiling other than linear or optimal never matches, so the search throws |
| `Images.FindDepthFormat` | App.cpp:587-593 | the result is one of the three depth candidates and supports the depth-stencil attachment bit with optimal tiling |
| `Images.DepthFormatStencil` | App.cpp:587-597 | D32_SFLOAT wins whenever it is supported; the chosen format has a stencil part iff it is not D32_SFLOAT |
| `Images.MemoryTypeFrom` | App.cpp:989-993 | the first memory type from position i allowed by the filter bit and having all requested properties, or the failure |
| `Images.FindMemoryType` | App.cpp:985-995 | the lowest allowed type with the requested properties; throws exactly when none exists |
| `Images.EmptyFilterFails` | App.cpp:989-994 | a zero type filter admits no memory type |
| `Images.TransitionImageLayout` | App.cpp:997-1042 | only UNDEFINED→TRANSFER_DST and TRANSFER_DST→SHADER_READ_ONLY are accepted, covering all mip levels from 0; the first row has no source access, transfer-write destination access, top-of-pipe to transfer stages; the second transfer-write to shader-read, transfer to fragment-shader stages; anything else throws |
| `Images.TransitionChain` | App.cpp:1013-1027 | the two rows move every level to TRANSFER_DST and then every level to SHADER_READ_ONLY |
| `Images.FloorLog2` | App.cpp:608 | 2^r ≤ n < 2^(r+1) |
| `Images.FloorLog2Unique` | App.cpp:608 | floor-log2 is the only exponent with that bracket |
| `Images.MipLevels` | App.cpp:608 | at least one level, and 2^(levels-1) ≤ max(w, h) < 2^levels |
| `Images.MipLevelsExamples` | App.cpp:608 | 512×256 gives 10 levels, 1×1 gives 1, 1920×1080 gives 11 |
| `Images.ShrinkToOne` | App.cpp:700-701 | halving while above 1, floor-log2(m) times, brings m to exactly 1 |
| `Images.LastLevelIsOne` | App.cpp:608 | the last mip level of the larger dimension has size 1 |
| `Images.ShrinkTimesPositive` | App.cpp:677 | every level of a positive-size texture is at least 1, and the blit destination size is the next level's size |
| `Images.PassesLayout` | App.cpp:648-702 | pass j of the loop occupies commands 3(j-1)…3j-1 of the buffer |
| `Images.BlitSizes` | App.cpp:669-681 | pass i blits level i-1 at its size into level i at that size halved, never below 1 |
| `Images.PassStep` | App.cpp:648-698 | each pass is valid from its expected state: level i-1 goes to TRANSFER_SRC before the blit, level i is TRANSFER_DST during it, and level i-1 ends SHADER_READ_ONLY |
| `Images.ReplayPasses` | App.cpp:648-702 | from all levels in TRANSFER_DST the first m passes are valid and leave levels below m SHADER_READ_ONLY |
| `Images.MipCommandsValid` | App.cpp:648-715 | the whole buffer is valid from all-TRANSFER_DST and ends with every level SHADER_READ_ONLY; with zero levels the final barrier names a missing level |
| `Images.GenerateMipmaps` | App.cpp:633-717 | from every level in TRANSFER_DST (App.cpp:623): throws, changing nothing, exactly when the format lacks linear-filter support; otherwise records exactly the planned buffer, and the levels end in the state replaying that buffer reaches, every level SHADER_READ_ONLY |
| `VertexModel.VertexEqualsIsEquality` | App.h:54-56 | the operator is equality of position, colour and texture coordinate, so it is value equality |
| `VertexModel.HashReadsOnly` | App.h:59-67 | vertices agreeing on pos.xy, color.xy and texCoord.x hash alike |
| `VertexModel.HashConsistentWithEquals` | App.h:59-67 | equal vertices hash equal |
| `VertexModel.HashIgnoresTexCoordY` | App.h:62-64 | the second texture coordinate never affects the hash |
| `VertexModel.GetBindingDescription` | App.h:25-31 | binding 0, stride the size of a vertex, per-vertex rate |
| `VertexModel.GetAttributeDescriptions` | App.h:33-52 | three attributes on binding 0 at locations 0, 1, 2 with 3, 3 and 2 components at the members' offsets |
| `VertexModel.AttributesFitBinding` | App.h:20-52 | the attributes lie inside one stride, do not overlap and together fill it |
| `Mesh.FlattenUpToPrefix` | App.cpp:834-835 | the references of the first shapes are a prefix of those of more shapes |
| `Mesh.ShapeInMesh` | App.cpp:834-835 | shape s's references follow those of the shapes before it in the visiting order |
| `Mesh.ShapeVertices` | App.cpp:834-848 | each reference of shape s reads inside the attribute arrays and builds the mesh vertex at its position in the visiting order |
| `Mesh.StepNewVertex` | App.cpp:850-853 | a vertex not seen before is appended and indexed, keeping the invariant |
| `Mesh.StepKnownVertex` | App.cpp:855 | a vertex seen before is indexed by its stored position, keeping the invariant |
| `Mesh.LoadShape` | App.cpp:835-856 | the inner loop over one shape's references keeps the invariant from its first to past its last reference |
| `Mesh.LoadModel` | App.cpp:832-857 | each reference's vertex is built from the attribute arrays (position triple, flipped texture y, white); one index per reference, in range and resolving to that vertex; vertices distinct, exactly the built ones, in first-seen order; two references share an index iff they build the same vertex, so equal references share one |
| `Mesh.DedupFinal` | App.cpp:832-857 | the loop invariant over all references gives distinctness, membership, first-seen order and index sharing |
| `Mesh.DedupDistinct` | App.cpp:850-853 | a vertex is appended only when the map lacks it, so the buffer has no duplicates |
| `Mesh.DedupCovers` | App.cpp:850-855 | the buffer holds exactly the referenced vertices |
| `Mesh.DedupFirstSeen` | App.cpp:850-853 | the buffer lists vertices in the order of their first reference |
| `Mesh.DedupSharedIndex` | App.cpp:855 | two references get the same index iff they are the same vertex |
| `ImageWriter.WriterData.constructor` | ImageWriter.h:22-24 | a record with zeroed fields and a fresh 1920·1080·4-byte buffer |
| `ImageWriter.ImageWriter.constructor` | ImageWriter.h:18-27 | exactly 100 slots, each with an idle thread and its own buffer, and ring index 0 |
| `ImageWriter.ImageWriter.GetNext` | ImageWriter.h:38-45 | the ring advances mod 100, the slot's worker is joined (idle afterwards), the slot's fixed record is returned and the pool is unchanged |
| `ImageWriter.ImageWriter.Write` | ImageWriter.h:47-50 | a worker starts on the current slot iff that slot is idle, recording a snapshot of its record; a running one would terminate the program |
| `ImageWriter.ImageWriter.Destroy` | ImageWriter.h:29-36 | every slot's worker is joined |
| `ImageWriter.NatToDecimal` | ImageWriter.cpp:11 | a non-empty digit string, one digit exactly for values below 10 |
| `ImageWriter.NatToDecimalInjective` | ImageWriter.cpp:11 | different numbers have different decimal renderings |
| `ImageWriter.IntToDecimalInjective` | ImageWriter.cpp:11 | different ints, signs included, render differently |
| `ImageWriter.FilenameInjective` | ImageWriter.cpp:9-12 | distinct indices give distinct file names |
| `ImageWriter.FilenameExamples` | ImageWriter.cpp:9-12 | index 1 is "images/img1.bmp" and 999 is "images/img999.bmp" |
| `ImageWriter.Work` | ImageWriter.cpp:8-16 | the encoder gets the index's file name and the record's width, height, components and data unchanged |
| `ImageWriter.WorkFilenames` | ImageWriter.cpp:9-15 | the file name depends on the index alone, and different indices write different files |
| `Frames.PlanKeepsSlots` | App.cpp:1143-1206 | `_currentFrame` stays in [0, 2) and every fence in `_imagesInFlight` belongs to a frame slot |
| `Frames.PlanAcquireOutOfDate` | App.cpp:1147-1151 | an out-of-date acquire rebuilds and returns: no capture, no fence recorded, slot reset to 0 |
| `Frames.PlanMarksImage` | App.cpp:1156-1161 | after an accepted acquire only the image's entry changes, to the slot's fence, and a capture happens iff it already held a fence |
| `Frames.PlanCaptureAndAdvance` | App.cpp:1156-1205 | captures only for an image in flight; presenting advances the slot mod 2, a present rebuild leaves slot 1 and a cleared flag, failures keep the slot |
| `Frames.PlanRebuildsOnPresent` | App.cpp:1194-1200 | after a successful submit the frame rebuilds iff the present is out of date or suboptimal or the flag is raised |
| `Frames.CaptureBytes` | App.cpp:1383 | width·height·4 when that fits uint32 |
| `Frames.FullHdFits` | App.cpp:1383 | a capture of at most 1920×1080 pixels fits the writer's buffer |
| `Frames.ToI32` | App.cpp:1379-1380 | the uint32 extent stored into an int keeps its bits |
| `Frames.CaptureFilesDistinct` | App.cpp:1378 | captures numbered 1, 2, 3, … go to img1, img2, img3, … and never to the same file |
| `Frames.Renderer.constructor` | App.cpp:1121-1125 | `_imagesInFlight` sized to the first swap chain and all null, slot 0, counter 1, no captures |
| `Frames.Renderer.RecreateSwapchain` | App.cpp:1259-1279 | the new extent is chosen from the rebuild's surface and window size, and the slot resets to 0 |
| `Frames.Renderer.SaveFrame` | App.cpp:1316-1393 | a capture that fits advances the ring to the next slot, whose worker starts (its flag set) on the record holding the counter's value (then incremented), the extent, 4 components and width·height·4 mapped bytes; that slot's record is the new job and the other slots' records are unchanged; earlier jobs are kept; the window closes when the counter hits 1000 |
| `Frames.RecordCapture` | App.cpp:1377-1385 | the writer's ring index advances mod 100, the slot's worker starts, the job appended is the filled record and it replaces only that slot's record |
| `Frames.FillRecord` | App.cpp:1378-1383 | the record holds the counter, the extent as ints, 4 components and the first width·height·4 mapped bytes |
| `Frames.Renderer.DrawFrame` | App.cpp:1143-1206 | the slot, the fence array, the flag and the result follow the scheduler's plan; a rebuild sets the extent; a capture appends exactly the job `saveFrame` records, keeps the earlier ones and advances the writer's ring by one slot with only that slot's record replaced; without a capture the ring, its thread flags and records are unchanged; of the device only the resize flag changes |
| `Frames.Renderer.RenderAcquired` | App.cpp:1156-1205 | the same after an accepted acquire of an image the array covers |
| `Frames.Renderer.CaptureIfInFlight` | App.cpp:1156-1159 | an image holding a fence is saved (with `SaveFrame`'s ring and job effects); otherwise the counter, the jobs and the writer's ring are unchanged |
| `Frames.Renderer.SubmitAndPresent` | App.cpp:1161-1205 | the image gets the slot's fence; then the result, the slot, the fence array, the flag and the extent are the scheduler's plan |
| `Frames.Renderer.PresentFrame` | App.cpp:1194-1205 | out of date, suboptimal or flag: clear, rebuild, slot 1; another failure throws without advancing; success advances mod 2 |
| `Frames.Renderer.MainLoop` | App.cpp:94-100 | the loop draws while the window stays open; earlier jobs are kept; the writer's ring index advances by exactly the number of captures, mod 100, over the same records; starting below 999 captures it never records more, and the window closes exactly at the 999th |
| `Frames.RingIndexAdvance` | ImageWriter.h:39 | advancing the ring index mod 100 by n and then by m is advancing it by n + m |

## Left out

- Vulkan, GLFW and stb calls (creation, destruction, command recording, submit, present, map, device idle, `stbi_load`, `stbi_write_bmp`, `tinyobj::LoadObj`, `readFile`): foreign code. Their results are parameters; fence and semaphore waits are no-ops.
- Floating point: `updateUniformBuffer`, glm matrices, viewport and sampler values, `std::log2`/`std::floor` (the mip count uses integer floor-log2), and float `==` and NaN (vertex components are an abstract type with equality).
- Real threads: a worker is a busy flag plus a recorded snapshot of its record, taken when it starts. Concurrent execution is not modelled. A record is rewritten only after `getNext` has joined its worker, so the snapshot taken at the start is exactly what the worker reads.
- `recreateSwapchain`/`cleanupSwapchain`/`cleanup`: only the new extent and the reset of `_currentFrame` are modelled. The new image count is not, because `_imagesInFlight` is never resized. An acquired index past the array (undefined behaviour in the source) ends the frame as `ImageIndexOutOfRange`.
- `Frames.Renderer.SaveFrame`: a copy larger than the writer's 1920·1080·4-byte buffer or the mapped memory is undefined behaviour in the source. The model reports it before changing anything, rather than modelling the overrun. The copy commands and the layout transitions of the capture are not modelled.
- `Images.GenerateMipmaps`: it requires every level to start in TRANSFER_DST, the state `createTextureImage` puts them in before calling it (App.cpp:621-623); other starting states are not modelled.
- `Mesh.LoadModel`: its requires excludes reads outside the attribute arrays, which the source leaves as undefined behaviour (for example an .obj face without `vt`, whose texture index -1 makes it read `texcoords[-2]`); the model does not capture that behaviour; the index buffer holds unbounded naturals, so the uint32 cast of `_vertices.size()` is not modelled.
- The ten-argument `transitionImageLayout` overloads and `copyBufferToImage` (App.cpp:1044-1069, 1395-1460): they record fixed barriers and copies and make no decision.
- The window's close button and event pumping: only the close request from the capture counter is modelled. `windowClosing` is the `windowShouldClose` field.
- HelloTriangleApplication.cpp/.h (an earlier tutorial stage duplicating the same selection code), main.cpp and Config.h: not part of this model.
- The instance extension list, the debug messenger, validation-layer logging and extension printing (AppDevice.cpp:322-397): diagnostics through foreign function pointers.
