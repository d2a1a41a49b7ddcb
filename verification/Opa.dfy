/** The Open Policy Agent client (opa/opa.go): a table of loaded policies that is only ever filled where it has
    no entry. */
module Opa {
  datatype Status = StatusOk | StatusNotFound | StatusOther

  /** What loading a policy only when its key is absent does to the table. */
  function Loaded(table: map<string, string>, key: string, rego: string): map<string, string> {
    if key in table then table else table[key := rego]
  }

  class OpaClient {
    var table: map<string, string>

    /** Whether any HTTP request has failed. */
    ghost var failed: bool

    constructor ()
      ensures table == map[] && !failed
    {
      table, failed := map[], false;
    }

    /** The HTTP requests may fail in any state. */
    method PolicyStatus(key: string) returns (status: Status)
      modifies `failed
      ensures status == StatusOk ==> key in table
      ensures status == StatusNotFound ==> key !in table
      ensures failed <==> old(failed) || status == StatusOther
    {
      if * {
        failed := true;
        status := StatusOther;
      } else {
        status := if key in table then StatusOk else StatusNotFound;
      }
    }

    method LoadPolicy(key: string, rego: string) returns (ok: bool)
      modifies this
      ensures table == if ok then old(table)[key := rego] else old(table)
      ensures failed <==> old(failed) || !ok
    {
      if * {
        ok, failed := false, true;
      } else {
        table := table[key := rego];
        ok := true;
      }
    }

    /** A success means that the key is loaded, by this call or an earlier one; a failure changes nothing. */
    method InitializePolicy(key: string, rego: string) returns (ok: bool)
      modifies this
      ensures table == if ok then Loaded(old(table), key, rego) else old(table)
      ensures failed <==> old(failed) || !ok
    {
      var status := PolicyStatus(key);
      match status {
        case StatusOther => return false;
        case StatusOk => return true;
        case StatusNotFound => ok := LoadPolicy(key, rego);
      }
    }
  }
}
