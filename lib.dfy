/** Signature resolution over a parsed introspection tree: the three public
    resolvers and the lookups they share. Each resolver finds the interface
    by name, then the member by name in the list of the requested kind, then
    selects or aggregates that member's arguments. A signature is modelled
    by its text, since it is built without validation. */
module ZbusXmlMatch {
  import opened Xml

  /** The error kinds the resolvers report (reading and parsing the
      document are not part of this model). */
  datatype Error = InterfaceNotFound | MissingParameter

  datatype Result<+T> = Ok(value: T) | Err(error: Error) {
    predicate IsFailure() { Err? }

    function PropagateFailure<U>(): Result<U>
      requires Err?
    {
      Err(error)
    }

    function Extract(): T
      requires Ok?
    {
      value
    }
  }

  /** The direction tag of a method's return value. */
  const OutDirection: Option<string> := Some("out")

  // ---------------------------------------------------------------------
  // First-match positions, the meaning of each `iter().find(..)` below

  ghost predicate HasInterface(s: seq<Interface>, name: string) {
    exists i :: 0 <= i < |s| && s[i].name == name
  }

  /** `i` is the position of the first interface called `name`. */
  ghost predicate FirstInterfaceAt(s: seq<Interface>, name: string, i: int) {
    0 <= i < |s| && s[i].name == name && forall j :: 0 <= j < i ==> s[j].name != name
  }

  ghost predicate HasMember(s: seq<Member>, name: string) {
    exists i :: 0 <= i < |s| && s[i].name == name
  }

  /** `i` is the position of the first member called `name`. */
  ghost predicate FirstMemberAt(s: seq<Member>, name: string, i: int) {
    0 <= i < |s| && s[i].name == name && forall j :: 0 <= j < i ==> s[j].name != name
  }

  ghost predicate HasArgNamed(args: seq<Arg>, kind: Option<string>) {
    exists i :: 0 <= i < |args| && args[i].name == kind
  }

  /** `i` is the position of the first argument whose optional name is `kind`. */
  ghost predicate FirstArgNamedAt(args: seq<Arg>, kind: Option<string>, i: int) {
    0 <= i < |args| && args[i].name == kind && forall j :: 0 <= j < i ==> args[j].name != kind
  }

  ghost predicate HasOutArg(args: seq<Arg>) {
    exists i :: 0 <= i < |args| && args[i].direction == OutDirection
  }

  /** `i` is the position of the first argument whose direction is "out". */
  ghost predicate FirstOutArgAt(args: seq<Arg>, i: int) {
    0 <= i < |args| && args[i].direction == OutDirection
    && forall j :: 0 <= j < i ==> args[j].direction != OutDirection
  }

  // ---------------------------------------------------------------------
  // The shared lookups

  /** The first interface called `name`, in declaration order, or
      `InterfaceNotFound` when there is none. */
  function FindInterface(s: seq<Interface>, name: string): (r: Result<Interface>)
    ensures r.Ok? ==> exists i :: FirstInterfaceAt(s, name, i) && r.value == s[i]
    ensures forall i :: FirstInterfaceAt(s, name, i) ==> r == Ok(s[i])
    ensures r.Err? <==> !HasInterface(s, name)
    ensures r.Err? ==> r.error == InterfaceNotFound
  {
    if s == [] then Err(InterfaceNotFound)
    else if s[0].name == name then
      assert FirstInterfaceAt(s, name, 0);
      Ok(s[0])
    else
      assert forall i :: FirstInterfaceAt(s[1..], name, i) ==> FirstInterfaceAt(s, name, i + 1);
      assert forall i :: FirstInterfaceAt(s, name, i) ==> FirstInterfaceAt(s[1..], name, i - 1);
      assert forall i :: 0 < i < |s| ==> s[i] == s[1..][i - 1];
      FindInterface(s[1..], name)
  }

  /** The first member called `name` in one list of an interface (its signals
      or its methods), or `MissingParameter` when there is none. */
  function FindMember(s: seq<Member>, name: string): (r: Result<Member>)
    ensures r.Ok? ==> exists i :: FirstMemberAt(s, name, i) && r.value == s[i]
    ensures forall i :: FirstMemberAt(s, name, i) ==> r == Ok(s[i])
    ensures r.Err? <==> !HasMember(s, name)
    ensures r.Err? ==> r.error == MissingParameter
  {
    if s == [] then Err(MissingParameter)
    else if s[0].name == name then
      assert FirstMemberAt(s, name, 0);
      Ok(s[0])
    else
      assert forall i :: FirstMemberAt(s[1..], name, i) ==> FirstMemberAt(s, name, i + 1);
      assert forall i :: FirstMemberAt(s, name, i) ==> FirstMemberAt(s[1..], name, i - 1);
      assert forall i :: 0 < i < |s| ==> s[i] == s[1..][i - 1];
      FindMember(s[1..], name)
  }

  /** The first argument whose optional name equals `kind`, or
      `MissingParameter` when there is none. Names are compared as options,
      so `kind == None` picks the first unnamed argument. */
  function FindArgNamed(args: seq<Arg>, kind: Option<string>): (r: Result<Arg>)
    ensures r.Ok? ==> exists i :: FirstArgNamedAt(args, kind, i) && r.value == args[i]
    ensures forall i :: FirstArgNamedAt(args, kind, i) ==> r == Ok(args[i])
    ensures r.Err? <==> !HasArgNamed(args, kind)
    ensures r.Err? ==> r.error == MissingParameter
  {
    if args == [] then Err(MissingParameter)
    else if args[0].name == kind then
      assert FirstArgNamedAt(args, kind, 0);
      Ok(args[0])
    else
      assert forall i :: FirstArgNamedAt(args[1..], kind, i) ==> FirstArgNamedAt(args, kind, i + 1);
      assert forall i :: FirstArgNamedAt(args, kind, i) ==> FirstArgNamedAt(args[1..], kind, i - 1);
      assert forall i :: 0 < i < |args| ==> args[i] == args[1..][i - 1];
      FindArgNamed(args[1..], kind)
  }

  /** The first argument whose direction is "out", or `MissingParameter` when
      no argument has that direction. */
  function FindOutArg(args: seq<Arg>): (r: Result<Arg>)
    ensures r.Ok? ==> exists i :: FirstOutArgAt(args, i) && r.value == args[i]
    ensures forall i :: FirstOutArgAt(args, i) ==> r == Ok(args[i])
    ensures r.Err? <==> !HasOutArg(args)
    ensures r.Err? ==> r.error == MissingParameter
  {
    if args == [] then Err(MissingParameter)
    else if args[0].direction == OutDirection then
      assert FirstOutArgAt(args, 0);
      Ok(args[0])
    else
      assert forall i :: FirstOutArgAt(args[1..], i) ==> FirstOutArgAt(args, i + 1);
      assert forall i :: FirstOutArgAt(args, i) ==> FirstOutArgAt(args[1..], i - 1);
      assert forall i :: 0 < i < |args| ==> args[i] == args[1..][i - 1];
      FindOutArg(args[1..])
  }

  // ---------------------------------------------------------------------
  // The first-match choices of each resolver

  /** Interface `i`, signal `s` and argument `a` are the ones the signal-argument
      resolver selects: each is the first match in its list. */
  ghost predicate SelectsSignalArg(node: Node, interfaceName: string, memberName: string,
                                   kind: Option<string>, i: int, s: int, a: int)
  {
    FirstInterfaceAt(node.interfaces, interfaceName, i)
    && FirstMemberAt(node.interfaces[i].signals, memberName, s)
    && FirstArgNamedAt(node.interfaces[i].signals[s].args, kind, a)
  }

  /** Interface `i`, method `m` and argument `a` are the ones the method-return
      resolver selects. */
  ghost predicate SelectsMethodOutArg(node: Node, interfaceName: string, memberName: string,
                                      i: int, m: int, a: int)
  {
    FirstInterfaceAt(node.interfaces, interfaceName, i)
    && FirstMemberAt(node.interfaces[i].methods, memberName, m)
    && FirstOutArgAt(node.interfaces[i].methods[m].args, a)
  }

  /** Interface `i` and signal `s` are the ones the event composer selects. */
  ghost predicate SelectsSignal(node: Node, interfaceName: string, memberName: string, i: int, s: int)
  {
    FirstInterfaceAt(node.interfaces, interfaceName, i)
    && FirstMemberAt(node.interfaces[i].signals, memberName, s)
  }

  // ---------------------------------------------------------------------
  // The three resolvers

  /** `get_signature_of_signal_body_type`: the type text of the first argument
      named `kind` of the first signal `memberName` of the first interface
      `interfaceName`, verbatim. */
  function GetSignatureOfSignalBodyType(node: Node, interfaceName: string, memberName: string,
                                        kind: Option<string>): Result<string>
  {
    var iface :- FindInterface(node.interfaces, interfaceName);
    var signal :- FindMember(iface.signals, memberName);
    var arg :- FindArgNamed(signal.args, kind);
    Ok(arg.ty)
  }

  /** `get_signature_of_method_return_type_from_xml`: the type text of the first
      "out" argument of the first method `memberName` of the first interface
      `interfaceName`, verbatim. */
  function GetSignatureOfMethodReturnType(node: Node, interfaceName: string, memberName: string)
    : Result<string>
  {
    var iface :- FindInterface(node.interfaces, interfaceName);
    var m :- FindMember(iface.methods, memberName);
    var arg :- FindOutArg(m.args);
    Ok(arg.ty)
  }

  /** The type texts of `args` concatenated in declaration order. */
  function ConcatTypes(args: seq<Arg>): string {
    if args == [] then "" else ConcatTypes(args[..|args| - 1]) + args[|args| - 1].ty
  }

  /** The composite signature of a signal's whole payload. */
  function EventBody(args: seq<Arg>): string {
    "(" + ConcatTypes(args) + ")"
  }

  /** What `get_signature_of_atspi_event_from_xml` computes: the event body of
      the first signal `memberName` of the first interface `interfaceName`. */
  function AtspiEventSignature(node: Node, interfaceName: string, memberName: string): Result<string>
  {
    var iface :- FindInterface(node.interfaces, interfaceName);
    var signal :- FindMember(iface.signals, memberName);
    Ok(EventBody(signal.args))
  }

  /** Collects the arguments' type texts into a buffer, then inserts "(" at
      the front and pushes ")" at the back. */
  method ComposeEventBody(args: seq<Arg>) returns (signature: string)
    ensures signature == EventBody(args)
  {
    signature := "";
    for k := 0 to |args|
      invariant signature == ConcatTypes(args[..k])
    {
      assert args[..k + 1][..k] == args[..k];
      signature := signature + args[k].ty;
    }
    assert args[..|args|] == args;
    signature := "(" + signature;
    signature := signature + ")";
  }

  /** `get_signature_of_atspi_event_from_xml`, after the document is parsed. */
  method GetSignatureOfAtspiEventFromXml(node: Node, interfaceName: string, memberName: string)
    returns (r: Result<string>)
    ensures r == AtspiEventSignature(node, interfaceName, memberName)
  {
    var iface :- FindInterface(node.interfaces, interfaceName);
    var signal :- FindMember(iface.signals, memberName);
    var signature := ComposeEventBody(signal.args);
    r := Ok(signature);
  }
}
