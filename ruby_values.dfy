/** Ruby values as the option hashes hold them, and the exceptions the library raises. */
module RubyValues {
  import opened Text

  /** nil, true or false, an Integer, or a String. A Symbol or a Float is held as
      its text, which is all the library ever does with one (to_s or ==). */
  datatype Value = Nil | Bool(b: bool) | Int(i: int) | Str(s: string)

  /** Object#to_s, which is what string interpolation "#{v}" uses. */
  function ToS(v: Value): string {
    match v
    case Nil => ""
    case Bool(b) => if b then "true" else "false"
    case Int(i) => IntToString(i)
    case Str(s) => s
  }

  /** Ruby truthiness: everything except nil and false. */
  predicate Truthy(v: Value) {
    v != Nil && v != Bool(false)
  }

  /** The exceptions the modelled code can raise. */
  datatype Error =
    | ArgumentError(message: string)
    | NoMethodError(message: string)
    | FloatDomainError
    | FFMPEGError(message: string)
}
