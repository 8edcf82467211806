/** The hardware database: devices by udi, each with typed properties. The program reaches it through
    foreign calls; here it is a value that every operation takes as it is at that moment. */
module Hal {
  import opened Options
  import opened Numbers

  type Int32 = i: int | INT_MIN <= i <= INT_MAX

  /** A typed value. `Number` stands for the two types whose printing and comparing are left to the C
      library (64-bit and double): the text they print as, and whether a text compares equal. */
  datatype Value =
    | Str(s: string)
    | Bool(b: bool)
    | Int(i: Int32)
    | StrList(l: seq<string>)
    | Number(text: string, equals: string -> bool)
    | Unhandled

  type Props = map<string, Value>
  type Database = map<string, Props>

  /** The list of strings that the program keeps for a value (`halevt_get_property_value`). */
  function Format(v: Value): seq<string> {
    match v
    case Str(s) => [s]
    case Bool(b) => [if b then "true" else "false"]
    case Int(i) => [Dec(i)]
    case StrList(l) => l
    case Number(text, _) => [text]
    case Unhandled => []
  }

  predicate HasProperty(hal: Database, udi: string, key: string) {
    udi in hal && key in hal[udi]
  }

  /** `halevt_udi_property_value`: the values of a property as they are now. */
  function PropertyValue(hal: Database, udi: string, key: string): Option<seq<string>> {
    if HasProperty(hal, udi, key) then Some(Format(hal[udi][key])) else None
  }

  /** A property set is handed out as a sequence in an order of its own. */
  datatype Entry = Entry(key: string, value: Value)

  ghost predicate Lists(entries: seq<Entry>, props: Props) {
    (forall i | 0 <= i < |entries| :: entries[i].key in props && props[entries[i].key] == entries[i].value) &&
    (forall i, j | 0 <= i < j < |entries| :: entries[i].key != entries[j].key) &&
    (forall k | k in props :: exists i | 0 <= i < |entries| :: entries[i].key == k)
  }
}
