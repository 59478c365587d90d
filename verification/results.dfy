/** Outcomes of the modelled operations. Each error stands for the
    exception Java raises on that path; `RasterTooLarge` stands for whichever
    one the JDK raises for an image no Java array can hold. */
module Results {

  datatype Error =
    | ArrayIndexOutOfBounds   // `frequency[0]` on a width-0 map, `parts[1]` with no separator
    | NegativeArraySize       // `new int[w][h]` with a negative dimension
    | IllegalArgument         // an AWT image of non-positive width or height
    | RasterTooLarge          // an AWT image of more than 2^31 - 1 pixels, which no `int[]` can hold
    | IncompatibleSizes       // `combine` of maps of positive width with different dimensions
    | EndOfFile               // `readInt` past the end of the stream
    | NumberFormat            // `Integer.parseInt` of a malformed or out-of-range string

  datatype Result<+T> = Ok(value: T) | Err(error: Error)

  datatype Option<+T> = None | Some(value: T)
}
