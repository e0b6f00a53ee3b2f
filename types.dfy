/** Value types shared by the colour sampler and the pick-mode state machine:
    the fixed-width integers of the Rust back end, the error outcomes of its
    commands, and the records it sends to the front end. */
module Types {

  type uint8 = x: int | 0 <= x < 0x100
  type uint32 = x: int | 0 <= x < 0x1_0000_0000
  type int32 = x: int | -0x8000_0000 <= x < 0x8000_0000

  datatype Option<T> = None | Some(value: T)

  /** The failures the commands report. The back end reports each as a message
      string; one constructor stands for each distinct message. */
  datatype Error =
    | CursorPositionUnavailable   // "Failed to get cursor position: ..."
    | DeviceContextUnavailable    // "Failed to get device context"
    | PixelColorUnavailable       // "Failed to get pixel color"
    | MonitorsUnavailable         // "Failed to get monitors: ..."
    | NoMonitorAtCursor           // "Could not find monitor containing cursor"
    | CaptureFailed               // "Failed to capture screen: ..."
    | EncodeFailed                // "Failed to encode image: ..."

  datatype Result<T> = Ok(value: T) | Err(error: Error)

  /** A colour as the `[u8; 3]` array `[r, g, b]`. */
  datatype Rgb = Rgb(r: uint8, g: uint8, b: uint8)

  /** A screen position in device pixels (Win32 POINT). */
  datatype Point = Point(x: int32, y: int32)

  /** The colour reported to the front end: `#RRGGBB`, its components and the
      screen position it was read at. */
  datatype ColorInfo = ColorInfo(hex: string, rgb: Rgb, x: int32, y: int32)

  /** One live-preview frame: the encoded crop, the colour under the cursor
      and the size of the crop. */
  datatype ZoomPreviewData = ZoomPreviewData(imageData: string, centerColor: ColorInfo, width: uint32, height: uint32)
}
