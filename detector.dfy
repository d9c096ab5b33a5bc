/** What the object detector hands to the plate-text code. The detector
    itself (a neural network run on pixels) is outside the model: an image
    is represented by the boxes the detector reports for it. */
module Detector {
  import opened PyStr

  /** One reported box: its class name, its confidence, and the horizontal coordinate of its centre. */
  datatype Box = Box(name: string, conf: real, x: real)

  /** Every class name is a word. The class names come with the model
      weights; this is assumed of them, and the names the source spells
      out (the ARABIC_MAP keys and "car plate") are of this form. */
  ghost predicate WordNames(boxes: seq<Box>) {
    forall i :: 0 <= i < |boxes| ==> IsWord(boxes[i].name)
  }

  datatype Option<T> = None | Some(value: T)

  /** An image variant: `size` is the number of array elements (numpy's
      `img.size`, zero for an empty array), `boxes` the detector's answer
      for it. */
  datatype Image = Image(size: nat, boxes: seq<Box>)
}
