/** Values shared by every stage of the glyph extraction pipeline. */
module Common {

  /** A point of the plane, in SVG user units (Y down) or, once flipped, in glyph units (Y up). */
  datatype Point = Point(x: real, y: real)

  datatype Option<T> = None | Some(value: T)

  /** The exceptions the extractor raises on input whose values are all well-formed numbers. */
  datatype Error =
    | MissingArgument  // IndexError: `vals[0]` of a transform written with no argument
    | ZeroStep         // ZeroDivisionError: `L / step` with `step == 0` on a path of positive length

  datatype Result<T> = Ok(value: T) | Err(error: Error)
}
