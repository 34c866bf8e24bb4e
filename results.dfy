/** Outcomes shared by the bit reader, the bit writer and the Huffman compilers. */
module Results {

  /** Rust's `Result<T, E>`: a value or the error that replaced it. */
  datatype Result<+T, +E> = Ok(value: T) | Err(error: E)

  /** The `io::ErrorKind`s the codec itself produces or passes on.
      `InvalidInput` is raised by the codec (a width or a value that does not fit);
      `UnexpectedEof` stands for the byte source running out in `read_exact`. */
  datatype IoError = InvalidInput | UnexpectedEof
}
