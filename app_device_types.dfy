/** The value types and default field values declared in AppDevice.h. */
module AppDeviceTypes {

  /** `QueueFamilyIndices`: two family indices, -1 meaning "not found". */
  datatype QueueFamilyIndices = QueueFamilyIndices(graphicsFamily: int, presentFamily: int)
  {
    predicate IsComplete() {
      graphicsFamily >= 0 && presentFamily >= 0
    }
  }

  /** The default member initialisers of `QueueFamilyIndices`. */
  function DefaultQueueFamilyIndices(): (r: QueueFamilyIndices)
    ensures r.graphicsFamily == -1 && r.presentFamily == -1
    ensures !r.IsComplete()
  {
    QueueFamilyIndices(-1, -1)
  }

  /** `AppWindow`: a fixed 800x600 window whose resize callback raises `Resized`. */
  class AppWindow {
    const width: int
    const height: int
    var resized: bool

    constructor ()
      ensures width == 800 && height == 600
      ensures !resized
    {
      width := 800;
      height := 600;
      resized := false;
    }

    /** `framebufferResizeCallback`: sets this window's flag, not the one the
        frame loop reads (that one is `AppDevice.framebufferResized`). */
    method FramebufferResizeCallback()
      modifies this`resized
      ensures resized
    {
      resized := true;
    }
  }
}
