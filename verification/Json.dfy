/** The values a JSON text denotes. */
module Json {
  import opened Bytes
  import Numbers

  datatype Tree =
    | Null
    | Bool(b: bool)
    | Num(value: real)
    | Str(s: Text)
    | Arr(items: seq<Tree>)
    | Obj(members: seq<Member>)

  datatype Member = Member(key: Text, value: Tree)

  /** CJSON_NESTING_LIMIT */
  const NESTING_LIMIT: nat := 1000

  /** At most `d` containers stand inside one another. */
  predicate NestsWithin(t: Tree, d: nat) {
    match t
    case Arr(items) => d > 0 && forall i :: 0 <= i < |items| ==> NestsWithin(items[i], d - 1)
    case Obj(ms) => d > 0 && forall i :: 0 <= i < |ms| ==> NestsWithin(ms[i].value, d - 1)
    case _ => true
  }

  predicate IsWhole(v: real) {
    v == v.Floor as real && -Numbers.LIMIT < v.Floor < Numbers.LIMIT
  }

  /** Numbers are whole and below 10^15 in size; strings and keys hold no NUL. */
  predicate Plain(t: Tree) {
    match t
    case Num(v) => IsWhole(v)
    case Str(s) => NulFree(s)
    case Arr(items) => forall i :: 0 <= i < |items| ==> Plain(items[i])
    case Obj(ms) => forall i :: 0 <= i < |ms| ==> NulFree(ms[i].key) && Plain(ms[i].value)
    case _ => true
  }

  /** All numbers are whole. */
  predicate Whole(t: Tree) {
    match t
    case Num(v) => IsWhole(v)
    case Arr(items) => forall i :: 0 <= i < |items| ==> Whole(items[i])
    case Obj(ms) => forall i :: 0 <= i < |ms| ==> Whole(ms[i].value)
    case _ => true
  }
}
