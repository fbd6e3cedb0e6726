# zbus-xml-match signature resolution, in Dafny

This project models the signature-resolution core of `zbus-xml-match`. The
crate reads D-Bus introspection XML for the AT-SPI2 accessibility protocol and
returns the wire-format type signature that an in-code type must match. The
model starts right after the document is parsed. Its input is the parsed tree
(`Xml.Node` owns interfaces, each `Xml.Interface` owns methods and signals,
each `Xml.Member` owns `Xml.Arg`s with an optional name, an optional direction
and a type text). It covers the three public resolvers:

- `get_signature_of_signal_body_type`: the type of the first argument whose
  optional name equals `kind`, in the first signal with the requested name;
- `get_signature_of_method_return_type_from_xml`: the type of the first
  argument whose direction is `Some("out")`, in the first method with the
  requested name;
- `get_signature_of_atspi_event_from_xml`: `"("`, then every argument type of
  the signal in order, then `")"`.

All three first find the interface by exact name (`InterfaceNotFound` if there
is none). They then find the member by exact name in the signals or in the
methods only (`MissingParameter` if there is none). A signature is modelled as
its text, because `Signature::from_string_unchecked` does no validation.

Files:

- `xml.dfy` (module `Xml`): the parsed tree.
- `lib.dfy` (module `ZbusXmlMatch`): the error kinds and the four
  `iter().find(..).ok_or(..)` lookups, as recursive functions. Each states
  first-match semantics through a `First…At` predicate. The same file holds the
  two single-argument resolvers as functions, and the event composer as a
  method with a loop proved equal to the function `EventBody`.
- `properties.dfy` (module `XmlMatchProperties`): lemmas that relate several
  inputs or calls.

Points where the model follows the code exactly:

- The code reports every missing member or argument as `MissingParameter`. It
  has no separate "member not found", "argument not found" or "no output
  argument" error kinds, so the model has none either.
- The argument discriminator `kind` is an `Option`. `None` selects the first
  unnamed argument.
- The code uses no index and does not assume that names are unique. When
  several entries match, the first one in declaration order is used. The model
  does not assume unique names either.

## Model

| member | source | states |
|---|---|---|
| ZbusXmlMatch.FindInterface | src/lib.rs:38-42 | success gives the first interface, in declaration order, whose name equals the requested one exactly; every such first position gives that result; failure happens exactly when no interface has the name, and its error is `InterfaceNotFound` |
| ZbusXmlMatch.FindMember | src/lib.rs:44-48 | success gives the first member in the given list (signals or methods) with the requested name; failure happens exactly when there is none, and its error is `MissingParameter` |
| ZbusXmlMatch.FindArgNamed | src/lib.rs:50-54 | success gives the first argument whose optional name equals `kind` (so `None` picks the first unnamed argument); failure happens exactly when no argument's name equals `kind`, and its error is `MissingParameter` |
| ZbusXmlMatch.FindOutArg | src/lib.rs:104-110 | success gives the first argument whose direction is `Some("out")`; failure happens exactly when no argument is "out", and its error is `MissingParameter` |
| ZbusXmlMatch.GetSignatureOfSignalBodyType | src/lib.rs:30-62 | the signal-argument resolver: what it returns is stated by `SignalBodyTypeSelection` (the selected argument's type text verbatim, or `InterfaceNotFound` exactly when no interface has the name) and `SignalBodyTypeMissingParameter` (when it fails with `MissingParameter`) |
| ZbusXmlMatch.GetSignatureOfMethodReturnType | src/lib.rs:85-118 | the method-return resolver: what it returns is stated by `MethodReturnTypeSelection` (the first "out" argument's type text verbatim, or `InterfaceNotFound` exactly when no interface has the name) and `MethodReturnTypeMissingParameter` (when it fails with `MissingParameter`) |
| ZbusXmlMatch.AtspiEventSignature | src/lib.rs:141-171 | the event composer as a function: what it returns is stated by `AtspiEventSignatureSelection` (the event body of the selected signal) and `AtspiEventSignatureFailsOnlyInLookup` (it fails only in lookup); `GetSignatureOfAtspiEventFromXml` is proved equal to it |
| ZbusXmlMatch.ConcatTypes | src/lib.rs:161 | the type texts collected in declaration order: their meaning is stated by `ConcatTypesCons` and `ConcatTypesSplit` (order), `ConcatTypesLength` (length) and `ConcatTypesIgnoresNamesAndDirections` (only types matter) |
| ZbusXmlMatch.EventBody | src/lib.rs:161-165 | the composed event body: `EventBodyShape` states it is "(", the collected texts, then ")", 2 longer than the texts together, and "()" for no arguments |
| XmlMatchProperties.SignalBodyTypeSelection | src/lib.rs:30-62 | when interface i, signal s and argument a are each the first match in their lists, the result is exactly `Ok` of that argument's type text; every success is such a type text (soundness); the result is `InterfaceNotFound` exactly when no interface has the name |
| XmlMatchProperties.MethodReturnTypeSelection | src/lib.rs:85-118 | when interface i, method m and the first "out" argument a are selected, the result is exactly `Ok` of that argument's type text; every success is such a type text; the result is `InterfaceNotFound` exactly when no interface has the name |
| XmlMatchProperties.AtspiEventSignatureSelection | src/lib.rs:148-168 | when interface i and signal s are the first matches, the result is `Ok(EventBody(args of s))`; every success has that form; the result is `InterfaceNotFound` exactly when no interface has the name |
| ZbusXmlMatch.ComposeEventBody | src/lib.rs:160-165 | the loop that collects the type texts into a buffer and then wraps it with `(` and `)` yields exactly `EventBody(args)`, that is `"(" + ty1 + ... + tyN + ")"` |
| ZbusXmlMatch.GetSignatureOfAtspiEventFromXml | src/lib.rs:141-171 | the imperative resolver, with its early returns on a failed lookup, yields exactly what `AtspiEventSignature` specifies, errors included |
| XmlMatchProperties.SignalBodyTypeMissingParameter | src/lib.rs:44-54 | the signal-argument resolver fails with `MissingParameter` exactly when the interface exists but its first signal of that name is missing or has no argument named `kind` |
| XmlMatchProperties.MethodReturnTypeMissingParameter | src/lib.rs:98-110 | the method resolver fails with `MissingParameter` exactly when the interface exists but its first method of that name is missing or has no "out" argument (e.g. a method with only "in" arguments) |
| XmlMatchProperties.AtspiEventSignatureFailsOnlyInLookup | src/lib.rs:148-158 | the event composer succeeds exactly when the interface and its signal are found, and otherwise fails with `MissingParameter` only when the signal is missing; argument contents never cause a failure |
| XmlMatchProperties.FindInterfaceByNamesOnly | src/lib.rs:39-42 | on two interface lists with the same names position by position, interface lookup succeeds on both at the same position or fails on both |
| XmlMatchProperties.SignalBodyTypeIgnoresMethods | src/lib.rs:44-48 | two trees that agree on interface names and signals give equal results from the signal-argument resolver, whatever their methods are, so a method never shadows a signal of the same name |
| XmlMatchProperties.AtspiEventSignatureIgnoresMethods | src/lib.rs:154-158 | two trees that agree on interface names and signals give equal results from the event composer, whatever their methods are |
| XmlMatchProperties.MethodResolverIgnoresSignals | src/lib.rs:98-102 | two trees that agree on interface names and methods give equal results from the method resolver, whatever their signals are, so a signal never shadows a method of the same name |
| XmlMatchProperties.FirstNamedArgWins | src/lib.rs:51-54 | when no argument before `arg` has the name `kind` and `arg` does, `arg` is selected, whatever follows it |
| XmlMatchProperties.FirstOutArgWins | src/lib.rs:105-110 | when no argument before `arg` is "out" and `arg` is, `arg` is selected; later "out" arguments are ignored |
| XmlMatchProperties.NonOutArgSkipped | src/lib.rs:107 | a leading argument that is "in" or has no direction is skipped: the choice is made among the arguments after it |
| XmlMatchProperties.NonOutPrefixSkipped | src/lib.rs:105-110 | any run of leading arguments none of which is "out" is skipped: `FindOutArg(before + rest) == FindOutArg(rest)` |
| XmlMatchProperties.MethodReturnTypeSkipsNonOutPrefix | src/lib.rs:98-112 | putting arguments that are not "out" in front of the selected method's arguments never changes the method resolver's result |
| XmlMatchProperties.ConcatTypesSnoc | src/lib.rs:161 | collecting the type texts of `args + [arg]` gives those of `args` followed by `arg`'s type text |
| XmlMatchProperties.ConcatTypesAppend | src/lib.rs:161 | collecting the type texts of `a + b` gives the texts of `a` followed by those of `b` |
| XmlMatchProperties.ConcatTypesCons | src/lib.rs:161 | the collected texts start with the first argument's type text, then the rest in order |
| XmlMatchProperties.ConcatTypesSplit | src/lib.rs:161 | the k-th argument's type text sits between the texts of the arguments before it and after it (declaration order is kept) |
| XmlMatchProperties.ConcatTypesLength | src/lib.rs:161 | the collected texts are as long as all the type texts together |
| XmlMatchProperties.ConcatTypesIgnoresNamesAndDirections | src/lib.rs:161 | two argument lists with the same type texts position by position collect to the same text, whatever their names and directions are |
| XmlMatchProperties.EventBodyShape | src/lib.rs:161-165 | a composed body is 2 longer than the type texts together, starts with `(`, ends with `)`, has the collected texts in between, and is `"()"` for a signal without arguments |
| XmlMatchProperties.EventBodyIgnoresNamesAndDirections | src/lib.rs:160-165 | argument names and directions do not affect the composed event body |
| XmlMatchProperties.ResolveEventTwice | src/lib.rs:141-171 | two calls of the event resolver on the same inputs return the same result, because the resolver keeps no state |

The resolvers `GetSignatureOfSignalBodyType`, `GetSignatureOfMethodReturnType`
and `AtspiEventSignature` in `lib.dfy` are functions, so repeated calls with
the same inputs always return the same result.

## Left out

- Reading the file (`std::fs::read_to_string`, src/lib.rs:36, 90, 146) is I/O. The model takes the parsed tree as input, and read errors are not modelled.
- XML parsing (`Node::from_str`, src/lib.rs:37, 91, 147) belongs to the zbus library, which is not part of this model. Parse errors are not modelled.
- `Signature::from_string_unchecked` is a foreign constructor that does no validation. It is modelled as the identity on the type text.
- The text of the `MissingParameter` messages (src/lib.rs:48, 54, 102) is not modelled. They are literals whose braces are not interpolated. Only the error kind is modelled.
- The `test_atspi_event_signature_and_type_match!` macro (src/lib.rs:186-201) and the test module (src/lib.rs:203-276) are left out. They compare against `Type::signature()` of `atspi` types and read XML files, and neither is available. Whether, for example, `GetRole` has an "out" argument depends on those files.
- The model builds signatures as sequences of characters. It does not model the byte layout of Rust's `String`, but `insert(0, '(')` and `push(')')` on ASCII characters give the same character sequence.
