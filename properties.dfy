/** Properties that relate several calls or several inputs of the resolvers:
    which error kind each failure is, scoping of member lookup by kind,
    first-match selection of arguments, and the shape of a composed event
    body. */
module XmlMatchProperties {
  import opened Xml
  import opened ZbusXmlMatch

  // ---------------------------------------------------------------------
  // What each resolver selects

  /** The signal-argument resolver returns, verbatim, the type text of the
      argument it selects (first interface, first signal, first argument named
      `kind`), every success is such a type text, and it reports
      `InterfaceNotFound` exactly when no interface has the name. */
  lemma SignalBodyTypeSelection(node: Node, interfaceName: string, memberName: string, kind: Option<string>)
    ensures forall i, s, a :: SelectsSignalArg(node, interfaceName, memberName, kind, i, s, a) ==>
              GetSignatureOfSignalBodyType(node, interfaceName, memberName, kind)
              == Ok(node.interfaces[i].signals[s].args[a].ty)
    ensures var r := GetSignatureOfSignalBodyType(node, interfaceName, memberName, kind);
            r.Ok? ==> exists i, s, a :: SelectsSignalArg(node, interfaceName, memberName, kind, i, s, a)
                        && r.value == node.interfaces[i].signals[s].args[a].ty
    ensures GetSignatureOfSignalBodyType(node, interfaceName, memberName, kind) == Err(InterfaceNotFound)
            <==> !HasInterface(node.interfaces, interfaceName)
  {
  }

  /** The method-return resolver returns, verbatim, the type text of the first
      "out" argument of the first method of the first interface with the given
      names, every success is such a type text, and it reports
      `InterfaceNotFound` exactly when no interface has the name. */
  lemma MethodReturnTypeSelection(node: Node, interfaceName: string, memberName: string)
    ensures forall i, m, a :: SelectsMethodOutArg(node, interfaceName, memberName, i, m, a) ==>
              GetSignatureOfMethodReturnType(node, interfaceName, memberName)
              == Ok(node.interfaces[i].methods[m].args[a].ty)
    ensures var r := GetSignatureOfMethodReturnType(node, interfaceName, memberName);
            r.Ok? ==> exists i, m, a :: SelectsMethodOutArg(node, interfaceName, memberName, i, m, a)
                        && r.value == node.interfaces[i].methods[m].args[a].ty
    ensures GetSignatureOfMethodReturnType(node, interfaceName, memberName) == Err(InterfaceNotFound)
            <==> !HasInterface(node.interfaces, interfaceName)
  {
  }

  /** The event composer returns the event body of the signal it selects,
      every success is such an event body, and it reports `InterfaceNotFound`
      exactly when no interface has the name. */
  lemma AtspiEventSignatureSelection(node: Node, interfaceName: string, memberName: string)
    ensures forall i, s :: SelectsSignal(node, interfaceName, memberName, i, s) ==>
              AtspiEventSignature(node, interfaceName, memberName)
              == Ok(EventBody(node.interfaces[i].signals[s].args))
    ensures var r := AtspiEventSignature(node, interfaceName, memberName);
            r.Ok? ==> exists i, s :: SelectsSignal(node, interfaceName, memberName, i, s)
                        && r.value == EventBody(node.interfaces[i].signals[s].args)
    ensures AtspiEventSignature(node, interfaceName, memberName) == Err(InterfaceNotFound)
            <==> !HasInterface(node.interfaces, interfaceName)
  {
  }

  // ---------------------------------------------------------------------
  // Error kinds

  /** The signal-argument resolver reports `MissingParameter` exactly when the
      interface is found but its first signal of that name is missing or has
      no argument named `kind`. */
  lemma SignalBodyTypeMissingParameter(node: Node, interfaceName: string, memberName: string,
                                       kind: Option<string>)
    ensures GetSignatureOfSignalBodyType(node, interfaceName, memberName, kind) == Err(MissingParameter)
            <==> exists i :: FirstInterfaceAt(node.interfaces, interfaceName, i)
                   && (!HasMember(node.interfaces[i].signals, memberName)
                       || exists s :: FirstMemberAt(node.interfaces[i].signals, memberName, s)
                            && !HasArgNamed(node.interfaces[i].signals[s].args, kind))
  {
    var ifaces := FindInterface(node.interfaces, interfaceName);
    if ifaces.Ok? {
      var i :| FirstInterfaceAt(node.interfaces, interfaceName, i) && ifaces.value == node.interfaces[i];
      var signals := FindMember(node.interfaces[i].signals, memberName);
      if signals.Ok? {
        var s :| FirstMemberAt(node.interfaces[i].signals, memberName, s)
                 && signals.value == node.interfaces[i].signals[s];
        assert forall i', s' :: (FirstInterfaceAt(node.interfaces, interfaceName, i')
                 && FirstMemberAt(node.interfaces[i'].signals, memberName, s')) ==> i' == i && s' == s;
      }
    }
  }

  /** The method-return resolver reports `MissingParameter` exactly when the
      interface is found but its first method of that name is missing or has
      no "out" argument, as for a method with only "in" arguments. */
  lemma MethodReturnTypeMissingParameter(node: Node, interfaceName: string, memberName: string)
    ensures GetSignatureOfMethodReturnType(node, interfaceName, memberName) == Err(MissingParameter)
            <==> exists i :: FirstInterfaceAt(node.interfaces, interfaceName, i)
                   && (!HasMember(node.interfaces[i].methods, memberName)
                       || exists m :: FirstMemberAt(node.interfaces[i].methods, memberName, m)
                            && !HasOutArg(node.interfaces[i].methods[m].args))
  {
    var ifaces := FindInterface(node.interfaces, interfaceName);
    if ifaces.Ok? {
      var i :| FirstInterfaceAt(node.interfaces, interfaceName, i) && ifaces.value == node.interfaces[i];
      var methods := FindMember(node.interfaces[i].methods, memberName);
      if methods.Ok? {
        var m :| FirstMemberAt(node.interfaces[i].methods, memberName, m)
                 && methods.value == node.interfaces[i].methods[m];
        assert forall i', m' :: (FirstInterfaceAt(node.interfaces, interfaceName, i')
                 && FirstMemberAt(node.interfaces[i'].methods, memberName, m')) ==> i' == i && m' == m;
      }
    }
  }

  /** The event composer fails only in lookup: it succeeds exactly when the
      interface exists and its first interface of that name has the signal,
      and then fails with no other error than `MissingParameter` for a
      missing signal. */
  lemma AtspiEventSignatureFailsOnlyInLookup(node: Node, interfaceName: string, memberName: string)
    ensures AtspiEventSignature(node, interfaceName, memberName).Ok?
            <==> exists i :: FirstInterfaceAt(node.interfaces, interfaceName, i)
                   && HasMember(node.interfaces[i].signals, memberName)
    ensures AtspiEventSignature(node, interfaceName, memberName) == Err(MissingParameter)
            <==> exists i :: FirstInterfaceAt(node.interfaces, interfaceName, i)
                   && !HasMember(node.interfaces[i].signals, memberName)
  {
    var ifaces := FindInterface(node.interfaces, interfaceName);
    if ifaces.Ok? {
      var i :| FirstInterfaceAt(node.interfaces, interfaceName, i) && ifaces.value == node.interfaces[i];
      assert forall i' :: FirstInterfaceAt(node.interfaces, interfaceName, i') ==> i' == i;
    }
  }

  // ---------------------------------------------------------------------
  // Member lookup is scoped by kind

  /** Two interface lists that agree on every interface's name and signals. */
  ghost predicate SameNamesAndSignals(a: seq<Interface>, b: seq<Interface>) {
    |a| == |b| && forall j :: 0 <= j < |a| ==> a[j].name == b[j].name && a[j].signals == b[j].signals
  }

  /** Two interface lists that agree on every interface's name and methods. */
  ghost predicate SameNamesAndMethods(a: seq<Interface>, b: seq<Interface>) {
    |a| == |b| && forall j :: 0 <= j < |a| ==> a[j].name == b[j].name && a[j].methods == b[j].methods
  }

  /** Interface lookup depends only on the names: on two lists with the same
      names position by position it succeeds at the same position or fails
      on both. */
  lemma {:induction false} FindInterfaceByNamesOnly(a: seq<Interface>, b: seq<Interface>, name: string)
    requires |a| == |b| && forall j :: 0 <= j < |a| ==> a[j].name == b[j].name
    ensures FindInterface(a, name).Ok? == FindInterface(b, name).Ok?
    ensures FindInterface(a, name).Ok? ==>
              exists i :: 0 <= i < |a| && FindInterface(a, name).value == a[i]
                          && FindInterface(b, name).value == b[i]
  {
    if a != [] && a[0].name != name {
      FindInterfaceByNamesOnly(a[1..], b[1..], name);
      if FindInterface(a, name).Ok? {
        var i :| 0 <= i < |a[1..]| && FindInterface(a[1..], name).value == a[1..][i]
                 && FindInterface(b[1..], name).value == b[1..][i];
        assert a[1..][i] == a[i + 1] && b[1..][i] == b[i + 1];
      }
    }
  }

  /** The signal-argument resolver never looks at methods: changing every
      interface's methods leaves its result unchanged, so a method never
      shadows a signal of the same name. */
  lemma SignalBodyTypeIgnoresMethods(node: Node, other: Node, interfaceName: string,
                                     memberName: string, kind: Option<string>)
    requires SameNamesAndSignals(node.interfaces, other.interfaces)
    ensures GetSignatureOfSignalBodyType(node, interfaceName, memberName, kind)
            == GetSignatureOfSignalBodyType(other, interfaceName, memberName, kind)
  {
    FindInterfaceByNamesOnly(node.interfaces, other.interfaces, interfaceName);
    var r := FindInterface(node.interfaces, interfaceName);
    var r' := FindInterface(other.interfaces, interfaceName);
    if r.Ok? {
      var i :| 0 <= i < |node.interfaces| && r.value == node.interfaces[i] && r'.value == other.interfaces[i];
      assert r.value.signals == r'.value.signals;
      assert FindMember(r.value.signals, memberName) == FindMember(r'.value.signals, memberName);
    } else {
      assert r'.Err? && r.error == r'.error;
    }
  }

  /** The event composer never looks at methods either. */
  lemma AtspiEventSignatureIgnoresMethods(node: Node, other: Node, interfaceName: string, memberName: string)
    requires SameNamesAndSignals(node.interfaces, other.interfaces)
    ensures AtspiEventSignature(node, interfaceName, memberName)
            == AtspiEventSignature(other, interfaceName, memberName)
  {
    FindInterfaceByNamesOnly(node.interfaces, other.interfaces, interfaceName);
    var r := FindInterface(node.interfaces, interfaceName);
    var r' := FindInterface(other.interfaces, interfaceName);
    if r.Ok? {
      var i :| 0 <= i < |node.interfaces| && r.value == node.interfaces[i] && r'.value == other.interfaces[i];
      assert r.value.signals == r'.value.signals;
      assert FindMember(r.value.signals, memberName) == FindMember(r'.value.signals, memberName);
    } else {
      assert r'.Err? && r.error == r'.error;
    }
  }

  /** The method resolver never looks at signals: changing every interface's
      signals leaves its result unchanged. */
  lemma MethodResolverIgnoresSignals(node: Node, other: Node, interfaceName: string, memberName: string)
    requires SameNamesAndMethods(node.interfaces, other.interfaces)
    ensures GetSignatureOfMethodReturnType(node, interfaceName, memberName)
            == GetSignatureOfMethodReturnType(other, interfaceName, memberName)
  {
    FindInterfaceByNamesOnly(node.interfaces, other.interfaces, interfaceName);
    var r := FindInterface(node.interfaces, interfaceName);
    var r' := FindInterface(other.interfaces, interfaceName);
    if r.Ok? {
      var i :| 0 <= i < |node.interfaces| && r.value == node.interfaces[i] && r'.value == other.interfaces[i];
      assert r.value.methods == r'.value.methods;
      assert FindMember(r.value.methods, memberName) == FindMember(r'.value.methods, memberName);
    } else {
      assert r'.Err? && r.error == r'.error;
    }
  }

  // ---------------------------------------------------------------------
  // Argument selection

  /** The first argument named `kind` wins, whatever follows it. */
  lemma FirstNamedArgWins(before: seq<Arg>, arg: Arg, after: seq<Arg>, kind: Option<string>)
    requires !HasArgNamed(before, kind) && arg.name == kind
    ensures FindArgNamed(before + [arg] + after, kind) == Ok(arg)
  {
    var args := before + [arg] + after;
    assert args[|before|] == arg;
    assert forall j :: 0 <= j < |before| ==> args[j] == before[j];
    assert FirstArgNamedAt(args, kind, |before|);
  }

  /** The first "out" argument wins: "in" arguments and arguments without a
      direction before it are skipped, and later "out" arguments are ignored. */
  lemma FirstOutArgWins(before: seq<Arg>, arg: Arg, after: seq<Arg>)
    requires !HasOutArg(before) && arg.direction == OutDirection
    ensures FindOutArg(before + [arg] + after) == Ok(arg)
  {
    var args := before + [arg] + after;
    assert args[|before|] == arg;
    assert forall j :: 0 <= j < |before| ==> args[j] == before[j];
    assert FirstOutArgAt(args, |before|);
  }

  /** A leading argument that is not "out" is skipped. */
  lemma NonOutArgSkipped(arg: Arg, rest: seq<Arg>)
    requires arg.direction != OutDirection
    ensures FindOutArg([arg] + rest) == FindOutArg(rest)
  {
    assert ([arg] + rest)[1..] == rest;
  }

  /** Any run of leading arguments none of which is "out" is skipped: the
      choice is made among the remaining arguments alone. */
  lemma {:induction false} NonOutPrefixSkipped(before: seq<Arg>, rest: seq<Arg>)
    requires !HasOutArg(before)
    ensures FindOutArg(before + rest) == FindOutArg(rest)
  {
    if before != [] {
      assert !HasOutArg(before[1..]) by {
        forall j | 0 <= j < |before[1..]|
          ensures before[1..][j].direction != OutDirection
        {
          assert before[1..][j] == before[j + 1];
        }
      }
      var args := before + rest;
      assert args[0] == before[0] && before[0].direction != OutDirection;
      assert args[1..] == before[1..] + rest;
      calc {
        FindOutArg(args);
        FindOutArg(args[1..]);
        { NonOutPrefixSkipped(before[1..], rest); }
        FindOutArg(rest);
      }
    } else {
      assert before + rest == rest;
    }
  }

  /** Arguments that are not "out" placed in front of a method's arguments
      never change the method resolver's result. */
  lemma MethodReturnTypeSkipsNonOutPrefix(node: Node, interfaceName: string, memberName: string,
                                          i: int, m: int, before: seq<Arg>)
    requires FirstInterfaceAt(node.interfaces, interfaceName, i)
    requires FirstMemberAt(node.interfaces[i].methods, memberName, m)
    requires !HasOutArg(before)
    ensures var iface := node.interfaces[i];
            var member := iface.methods[m];
            var widened := iface.(methods := iface.methods[m := member.(args := before + member.args)]);
            GetSignatureOfMethodReturnType(node.(interfaces := node.interfaces[i := widened]),
                                           interfaceName, memberName)
            == GetSignatureOfMethodReturnType(node, interfaceName, memberName)
  {
    var iface := node.interfaces[i];
    var member := iface.methods[m];
    var widened := iface.(methods := iface.methods[m := member.(args := before + member.args)]);
    var node' := node.(interfaces := node.interfaces[i := widened]);
    assert FirstInterfaceAt(node'.interfaces, interfaceName, i);
    assert FirstMemberAt(widened.methods, memberName, m);
    assert FindInterface(node'.interfaces, interfaceName) == Ok(widened);
    assert FindInterface(node.interfaces, interfaceName) == Ok(iface);
    assert FindMember(widened.methods, memberName) == Ok(member.(args := before + member.args));
    assert FindMember(iface.methods, memberName) == Ok(member);
    NonOutPrefixSkipped(before, member.args);
  }

  // ---------------------------------------------------------------------
  // The composed event body

  /** The sum of the lengths of the arguments' type texts. */
  function TypeLengths(args: seq<Arg>): nat {
    if args == [] then 0 else |args[0].ty| + TypeLengths(args[1..])
  }

  /** Appending one argument appends its type text. */
  lemma ConcatTypesSnoc(args: seq<Arg>, arg: Arg)
    ensures ConcatTypes(args + [arg]) == ConcatTypes(args) + arg.ty
  {
    assert (args + [arg])[..|args|] == args;
  }

  /** Concatenating the types of two argument lists in turn. */
  lemma {:induction false} ConcatTypesAppend(a: seq<Arg>, b: seq<Arg>)
    ensures ConcatTypes(a + b) == ConcatTypes(a) + ConcatTypes(b)
  {
    if b == [] {
      assert a + b == a;
    } else {
      var init, last := b[..|b| - 1], b[|b| - 1];
      assert b == init + [last];
      assert a + b == (a + init) + [last];
      calc {
        ConcatTypes(a + b);
        ConcatTypes((a + init) + [last]);
        { ConcatTypesSnoc(a + init, last); }
        ConcatTypes(a + init) + last.ty;
        { ConcatTypesAppend(a, init); }
        ConcatTypes(a) + ConcatTypes(init) + last.ty;
        ConcatTypes(a) + (ConcatTypes(init) + last.ty);
        { ConcatTypesSnoc(init, last); }
        ConcatTypes(a) + ConcatTypes(b);
      }
    }
  }

  /** The concatenation is `ty1 + ty2 + ... + tyN` read from the front. */
  lemma {:induction false} ConcatTypesCons(arg: Arg, rest: seq<Arg>)
    ensures ConcatTypes([arg] + rest) == arg.ty + ConcatTypes(rest)
  {
    ConcatTypesAppend([arg], rest);
    assert ConcatTypes([arg]) == ConcatTypes([]) + arg.ty;
  }

  /** The `k`-th argument's type text sits between those of the arguments
      before it and after it. */
  lemma {:induction false} ConcatTypesSplit(args: seq<Arg>, k: int)
    requires 0 <= k < |args|
    ensures ConcatTypes(args) == ConcatTypes(args[..k]) + args[k].ty + ConcatTypes(args[k + 1..])
  {
    var before, upTo, after := args[..k], args[..k + 1], args[k + 1..];
    assert upTo == before + [args[k]];
    ConcatTypesSnoc(before, args[k]);
    assert args == upTo + after;
    ConcatTypesAppend(upTo, after);
  }

  lemma {:induction false} ConcatTypesLength(args: seq<Arg>)
    ensures |ConcatTypes(args)| == TypeLengths(args)
  {
    if args != [] {
      ConcatTypesCons(args[0], args[1..]);
      assert [args[0]] + args[1..] == args;
      ConcatTypesLength(args[1..]);
    }
  }

  /** Only the type texts matter: argument names and directions never change
      the concatenation. */
  lemma {:induction false} ConcatTypesIgnoresNamesAndDirections(args: seq<Arg>, other: seq<Arg>)
    requires |args| == |other| && forall j :: 0 <= j < |args| ==> args[j].ty == other[j].ty
    ensures ConcatTypes(args) == ConcatTypes(other)
  {
    if args != [] {
      ConcatTypesIgnoresNamesAndDirections(args[..|args| - 1], other[..|other| - 1]);
    }
  }

  /** A composed event body is "(", the type texts in order, then ")": two
      characters longer than the type texts together, and "()" for a signal
      without arguments. */
  lemma EventBodyShape(args: seq<Arg>)
    ensures |EventBody(args)| == 2 + TypeLengths(args)
    ensures EventBody(args)[0] == '(' && EventBody(args)[|EventBody(args)| - 1] == ')'
    ensures EventBody(args)[1..|EventBody(args)| - 1] == ConcatTypes(args)
    ensures args == [] ==> EventBody(args) == "()"
  {
    ConcatTypesLength(args);
  }

  /** Names and directions of a signal's arguments never change its event body. */
  lemma EventBodyIgnoresNamesAndDirections(args: seq<Arg>, other: seq<Arg>)
    requires |args| == |other| && forall j :: 0 <= j < |args| ==> args[j].ty == other[j].ty
    ensures EventBody(args) == EventBody(other)
  {
    ConcatTypesIgnoresNamesAndDirections(args, other);
  }

  // ---------------------------------------------------------------------
  // No state across calls

  /** Resolving the same event twice gives the same result. */
  method ResolveEventTwice(node: Node, interfaceName: string, memberName: string)
    returns (first: Result<string>, second: Result<string>)
    ensures first == second
  {
    first := GetSignatureOfAtspiEventFromXml(node, interfaceName, memberName);
    second := GetSignatureOfAtspiEventFromXml(node, interfaceName, memberName);
  }
}
