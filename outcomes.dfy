/** The two failure-carrying shapes the decoder's Rust code uses: `Option` for a stage
    that either finds something or not, `Result` for the pipeline's typed outcome. */
module Outcomes {

  datatype Option<+T> = None | Some(value: T)

  datatype Result<+T, +E> = Ok(value: T) | Err(error: E)
}
