/** The parsed introspection tree that `Node::from_str` yields: a node owns
    interfaces, an interface owns methods and signals, and a method or signal
    owns its arguments in declaration order. The tree is read-only. */
module Xml {

  datatype Option<+T> = None | Some(value: T)

  /** An argument as the introspection document declares it: an optional
      `name`, an optional `direction` ("in" or "out", absent for signals)
      and the type-signature text `ty`, kept verbatim. */
  datatype Arg = Arg(name: Option<string>, direction: Option<string>, ty: string)

  /** A method or a signal: a name and its arguments in declaration order.
      Methods and signals have the same shape; which one a member is
      depends only on the list of its interface that holds it. */
  datatype Member = Member(name: string, args: seq<Arg>)

  datatype Interface = Interface(name: string, methods: seq<Member>, signals: seq<Member>)

  /** The root of a document: its interfaces in declaration order. A zbus
      node also holds child nodes, but the resolvers read only the root's
      own interfaces and never descend, so children are not represented. */
  datatype Node = Node(interfaces: seq<Interface>)
}
