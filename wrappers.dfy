/** The optional value that stands for Java's nullable references and for
    operations that can fail (a parse that throws, a lookup that misses). */
module Wrappers {

  datatype Option<+T> = None | Some(value: T)
}
