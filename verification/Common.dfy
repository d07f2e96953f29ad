// Two types that the models of several files share.

module Common {

  datatype Maybe<+T> = Nothing | Just(value: T)

  type Byte = b: int | 0 <= b < 256
}
