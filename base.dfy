/** Value types shared by every part of the packet-trace decoder model. */
module Base {

  /** One octet of a captured frame. */
  type byte = x: int | 0 <= x < 256

  datatype Option<+T> = None | Some(value: T)

  /** The exceptions the modelled Python code raises.  A decoder that can
      fail returns one of these instead of raising. */
  datatype Error =
    | Truncated          // a read needs more bytes than remain in the frame
    | ValueError         // int() of a malformed string, an address above 128 bits
    | KeyError           // a missing dictionary key
    | IndexError         // a missing list element
    | TypeError          // indexing None (a layout that was never found)
    | AttributeError     // a packet without the layer asked for
    | ZeroDivisionError  // a stripe size or a data-server count of zero
    | BitmapInval        // a bitmap bit without a decoding function
    | EnumInval          // a value that is not a member of the enumeration

  datatype Result<+T> = Ok(value: T) | Err(error: Error) {
    predicate IsFailure() { Err? }

    function PropagateFailure<U>(): Result<U>
      requires Err?
    {
      Err(error)
    }

    function Extract(): T
      requires Ok?
    {
      value
    }
  }
}
