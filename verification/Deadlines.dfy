/** A key-value store whose keys vanish exactly at their deadline: what the dictionary is meant to look like from
    outside. */
module Deadlines {
  import opened Basics

  /** A value and the time, in milliseconds, from which on it is gone. */
  datatype Entry = Entry(value: string, deadline: Option<nat>)

  type Ideal = map<string, Entry>

  predicate Live(m: Ideal, k: string, t: nat) {
    k in m && (m[k].deadline.Some? ==> t < m[k].deadline.value)
  }

  function IdealSet(m: Ideal, k: string, v: string, deadline: Option<nat>): Ideal {
    m[k := Entry(v, deadline)]
  }

  datatype ErrorKind = WrongArgs | Syntax | NotAnInteger | UnknownCommand

  datatype Reply = Ok | Nil | Bulk(text: string) | Integer(n: int) | Simple(text: string) | Error(kind: ErrorKind)

  function IdealGet(m: Ideal, k: string, t: nat): Reply {
    if Live(m, k, t) then Bulk(m[k].value) else Nil
  }

  /** Remaining seconds, as measured at `measured`, of a key that is still there at t. */
  function IdealTtl(m: Ideal, k: string, measured: nat, t: nat): Reply {
    if !Live(m, k, t) then Integer(-2)
    else if m[k].deadline.None? then Integer(-1)
    else Integer((m[k].deadline.value - measured) / 1000)
  }
}
