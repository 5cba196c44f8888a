/** The secret store the directory lives in: one document per path, each
    document a bag of named fields. Values are held as the client reads them
    back (a stored array of names is a list, a stored object is a map). */
module VaultStore {
  import opened Results

  /** A field value as the client sees it after parsing. */
  datatype Value =
    | Undefined                          // JavaScript `undefined`: the field is missing
    | Str(s: string)
    | Strs(items: seq<string>)           // an array of names
    | StrMap(entries: map<string, string>) // an object whose values are strings
    | Opaque(json: string)               // any other JSON value, by its canonical text

  // `==` on values stands for `fast-deep-equal`. The two agree as long as
  // values are canonical: `Opaque` never holds JSON that another
  // constructor represents (`"[]"` is `Strs([])`, `"{}"` is `StrMap(map[])`).

  type Doc = map<string, Value>

  /** The client's view of the store: the configured path prefix and the
      document at every path that has one. */
  datatype Vault = Vault(prefix: string, docs: map<string, Doc>)

  /** The store after an operation, and what the operation returned. The store
      is kept on failure too: writes already made are never rolled back. */
  datatype Step<T> = Step(vault: Vault, result: Result<T>)

  function Lookup(v: Vault, path: string): Option<Doc>
  {
    if path in v.docs then Some(v.docs[path]) else None
  }

  /** A read where a missing document reads as the empty document. */
  function ReadDoc(v: Vault, path: string): Doc
  {
    match Lookup(v, path)
    case Some(d) => d
    case None => map[]
  }

  /** Property access on a document: a missing field is `undefined`. */
  function Field(d: Doc, key: string): Value
  {
    if key in d then d[key] else Undefined
  }

  /** A write replaces the whole document at `path`. */
  function Put(v: Vault, path: string, d: Doc): (r: Vault)
    ensures Lookup(r, path) == Some(d)
    ensures SameOutside(v, r, {path})
  {
    v.(docs := v.docs[path := d])
  }

  function Delete(v: Vault, path: string): (r: Vault)
    ensures Lookup(r, path) == None
    ensures SameOutside(v, r, {path})
  {
    v.(docs := v.docs - {path})
  }

  /** `w` differs from `v` at most at the given paths. */
  ghost predicate SameOutside(v: Vault, w: Vault, paths: set<string>)
  {
    v.prefix == w.prefix && forall q :: q !in paths ==> Lookup(w, q) == Lookup(v, q)
  }

  /** A document as stored: `undefined` fields are not serialised. */
  predicate Stored(d: Doc)
  {
    forall k :: k in d ==> d[k] != Undefined
  }

  function Clean(d: Doc): (r: Doc)
    ensures Stored(r)
    ensures forall k :: Field(r, k) == Field(d, k)
  {
    map k | k in d && d[k] != Undefined :: d[k]
  }

  /** The single-field document `{ value: ... }` most writes store. */
  function ValueDoc(x: Value): Doc
  {
    map["value" := x]
  }

  /** How a value prints inside a template literal such as a path. */
  function TemplateText(x: Value): string
  {
    match x
    case Undefined => "undefined"
    case Str(s) => s
    case Strs(items) => Join(items)
    case StrMap(_) => "[object Object]"
    case Opaque(json) => json
  }

  /** `items.join(',')`, which is how an array prints in a template literal. */
  function Join(items: seq<string>): string
  {
    if |items| == 0 then ""
    else if |items| == 1 then items[0]
    else items[0] + "," + Join(items[1..])
  }
}
