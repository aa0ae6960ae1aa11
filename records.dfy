/** The test record, `struct cest`: a test body together with the namespace and
    name it was declared under, each held in a fixed-size char buffer. */
module Records {
  import opened CStrings

  /** `cest_state`; the C enumerators take the values 0, 1 and 2 in this order. */
  datatype CestState = Failure | Success | Pending

  /** The integer value of an enumerator, which the runner does arithmetic on. */
  function Ordinal(s: CestState): (v: int)
    ensures 0 <= v <= 2
    ensures s == Failure <==> v == 0
    ensures s == Success <==> v == 1
  {
    match s
    case Failure => 0
    case Success => 1
    case Pending => 2
  }

  /** `sizeof` of the namespace buffer: 31 usable characters and a terminator. */
  const NamespaceSize: nat := 32
  /** `sizeof` of the name buffer: 215 usable characters and a terminator. */
  const NameSize: nat := 216

  /** One enrolled test. The body is the C function pointer `function`; a Dafny
      total function of no arguments stands for it, so the model knows what it
      returns but not how it computes that. The two buffers hold what the
      struct's `char` arrays hold once `Cest__create` has filled them; nothing
      writes them afterwards. */
  class CestRecord {
    const body: () -> CestState
    const namespace: seq<char>
    const name: seq<char>

    /** Both buffers have the sizes of the struct's arrays and end in a NUL,
        so `strcmp` and `printf` never read past them. */
    predicate Valid()
    {
      |namespace| == NamespaceSize && namespace[NamespaceSize - 1] == Nul &&
      |name| == NameSize && name[NameSize - 1] == Nul
    }

    /** The namespace as C code reads it from the buffer. */
    function Namespace(): string
    {
      CString(namespace)
    }

    /** The name as C code reads it from the buffer. */
    function Name(): string
    {
      CString(name)
    }

    /** `Cest__create`: allocate a record, store the body, and `STRCPY` the
        namespace and the name into the record's buffers. */
    constructor Create(namespace: seq<char>, name: seq<char>, body: () -> CestState)
      ensures Valid()
      ensures this.body == body
      ensures this.namespace == StrCpyBuffer(namespace, NamespaceSize)
      ensures this.name == StrCpyBuffer(name, NameSize)
      ensures Namespace() == CString(namespace)[..Min(|CString(namespace)|, NamespaceSize - 1)]
      ensures Name() == CString(name)[..Min(|CString(name)|, NameSize - 1)]
    {
      var ns := new char[NamespaceSize];
      StrCpy(ns, namespace);
      var nm := new char[NameSize];
      StrCpy(nm, name);
      this.body := body;
      this.namespace := ns[..];
      this.name := nm[..];
      new;
      StrCpyTruncates(namespace, NamespaceSize);
      StrCpyTruncates(name, NameSize);
    }
  }

  /** `cest__execute`: run the record's body and hand back its result. */
  function Execute(c: CestRecord): CestState
  {
    c.body()
  }
}
