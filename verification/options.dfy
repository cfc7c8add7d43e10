/** The optional value the tracer returns from `Option`-typed calls (hit tests,
    bounding boxes, scatter events). */
module Options {

  datatype Option<+T> = None | Some(value: T)
}
