/** Type-string classification and signature checking of
    util/src/util/dynamic_call.c. */
module DynamicCall {
  import opened Wrappers
  import opened LibC

  /** `type_e`. Signed and unsigned integer kinds are interleaved so that a
      signed kind becomes its unsigned counterpart by adding one. */
  newtype TypeE = x: int | 0 <= x < 16

  const TypeUnknown: TypeE := 0
  const TypeNone: TypeE := 1
  const TypeInt8: TypeE := 2
  const TypeUInt8: TypeE := 3
  const TypeInt16: TypeE := 4
  const TypeUInt16: TypeE := 5
  const TypeInt32: TypeE := 6
  const TypeUInt32: TypeE := 7
  const TypeInt64: TypeE := 8
  const TypeUInt64: TypeE := 9
  const TypeIntPtr: TypeE := 10
  const TypeUIntPtr: TypeE := 11
  const TypeFloat: TypeE := 12
  const TypeDouble: TypeE := 13
  const TypeString: TypeE := 14
  const TypeWString: TypeE := 15

  /** Number of `*` characters in a type string. */
  function StarCount(s: string): nat
  {
    if s == [] then 0
    else StarCount(s[..|s| - 1]) + (if s[|s| - 1] == '*' then 1 else 0)
  }

  /** The signed integer kind chosen from the width markers of a string that
      contains "int"; plain `int` is 32 bits. */
  function SignedIntKind(t: string): TypeE
  {
    if Contains(t, "intptr") then TypeIntPtr
    else if Contains(t, "8") then TypeInt8
    else if Contains(t, "16") then TypeInt16
    else if Contains(t, "32") then TypeInt32
    else if Contains(t, "64") then TypeInt64
    else TypeInt32
  }

  /** The classification dynamic_call_get_type_from_string computes. */
  function TypeFromString(t: string): TypeE
  {
    if Contains(t, "int") then
      if '*' in t then TypeUnknown
      else if 'u' in t then SignedIntKind(t) + 1
      else SignedIntKind(t)
    else if Contains(t, "wchar_t") then
      if StarCount(t) == 1 then TypeWString else TypeUnknown
    else if Contains(t, "char") then
      if StarCount(t) >= 2 then TypeUnknown
      else if StarCount(t) == 1 then TypeString
      else if 'u' in t then TypeUInt8
      else TypeInt8
    else if Contains(t, "float") then
      if '*' in t then TypeUnknown else TypeFloat
    else if Contains(t, "double") then
      if '*' in t then TypeUnknown else TypeDouble
    else if Contains(t, "void") then
      if '*' in t then TypeUnknown else TypeNone
    else
      TypeUnknown
  }

  /** The one-line star-counting loop of get_type_from_string: `str` advances
      on every other character and `num_chrs` on every `*`, so together they
      walk the whole string once. */
  method CountStars(t: string) returns (numChrs: nat)
    ensures numChrs == StarCount(t)
  {
    var str := 0;
    numChrs := 0;
    while str + numChrs < |t|
      invariant str + numChrs <= |t|
      invariant numChrs == StarCount(t[..str + numChrs])
      decreases |t| - (str + numChrs)
    {
      assert t[..str + numChrs + 1][..str + numChrs] == t[..str + numChrs];
      if t[str + numChrs] == '*' {
        numChrs := numChrs + 1;
      } else {
        str := str + 1;
      }
    }
    assert t[..str + numChrs] == t;
  }

  /** dynamic_call_get_type_from_string. */
  method GetTypeFromString(t: string) returns (r: TypeE)
    ensures r == TypeFromString(t)
  {
    if Contains(t, "int") {
      var ret := TypeInt32;
      if '*' in t {
        return TypeUnknown;
      }
      if Contains(t, "intptr") {
        ret := TypeIntPtr;
      } else if Contains(t, "8") {
        ret := TypeInt8;
      } else if Contains(t, "16") {
        ret := TypeInt16;
      } else if Contains(t, "32") {
        ret := TypeInt32;
      } else if Contains(t, "64") {
        ret := TypeInt64;
      }
      if 'u' in t {
        ret := ret + 1;
      }
      return ret;
    }
    if Contains(t, "wchar_t") {
      var numChrs := CountStars(t);
      if numChrs == 1 {
        return TypeWString;
      }
      return TypeUnknown;
    }
    if Contains(t, "char") {
      var numChrs := CountStars(t);
      if numChrs >= 2 {
        return TypeUnknown;
      }
      if numChrs == 1 {
        return TypeString;
      }
      if 'u' in t {
        return TypeUInt8;
      }
      return TypeInt8;
    }
    if Contains(t, "float") {
      if '*' in t {
        return TypeUnknown;
      }
      return TypeFloat;
    }
    if Contains(t, "double") {
      if '*' in t {
        return TypeUnknown;
      }
      return TypeDouble;
    }
    if Contains(t, "void") {
      if '*' in t {
        return TypeUnknown;
      }
      return TypeNone;
    }
    return TypeUnknown;
  }

  // ---------------------------------------------------------------------
  // Type information of a function signature

  /** The fields of `struct type_info_t` that create_type_info fills; the
      stored type strings stay unset there and are left out. */
  datatype TypeInfo = TypeInfo(retType: TypeE, argvType: seq<TypeE>, argc: nat, hasUnknownTypes: bool)

  /** `info` holds the classification of the return type and of each
      argument type string, and its count matches. */
  predicate Describes(info: TypeInfo, retType: string, argv: seq<string>)
  {
    && info.argc == |argv| == |info.argvType|
    && info.retType == TypeFromString(retType)
    && forall i :: 0 <= i < |argv| ==> info.argvType[i] == TypeFromString(argv[i])
  }

  /** dynamic_call_create_type_info. `infoAllocOk` and `argvAllocOk` are the
      outcomes of the two allocations (the second is `argc` entries long). */
  method CreateTypeInfo(retType: string, argv: seq<string>, infoAllocOk: bool, argvAllocOk: bool)
    returns (r: Option<TypeInfo>)
    ensures r.Some? <==> infoAllocOk && argvAllocOk
    ensures r.Some? ==> Describes(r.value, retType, argv)
    ensures r.Some? ==> (r.value.hasUnknownTypes <==> r.value.retType == TypeUnknown || TypeUnknown in r.value.argvType)
  {
    if !infoAllocOk {
      return None;
    }
    var hasUnknownTypes := false;
    var ret := GetTypeFromString(retType);
    if ret == TypeUnknown {
      hasUnknownTypes := true;
    }
    if !argvAllocOk {
      return None;
    }
    var argvType: seq<TypeE> := [];
    var argc := 0;
    var i := 0;
    while i != |argv|
      invariant 0 <= i <= |argv|
      invariant argc == i == |argvType|
      invariant forall k :: 0 <= k < i ==> argvType[k] == TypeFromString(argv[k])
      invariant hasUnknownTypes <==> ret == TypeUnknown || TypeUnknown in argvType
    {
      var t := GetTypeFromString(argv[i]);
      argvType := argvType + [t];
      if t == TypeUnknown {
        hasUnknownTypes := true;
      }
      argc := argc + 1;
      i := i + 1;
    }
    return Some(TypeInfo(ret, argvType, argc, hasUnknownTypes));
  }

  /** What dynamic_call_do_typecheck accepts: the same argument count, a
      present return type string and present argument strings, each
      classified as recorded. */
  predicate SignatureMatches(info: TypeInfo, retType: Option<string>, argv: seq<Option<string>>)
    requires |info.argvType| == info.argc
  {
    && |argv| == info.argc
    && retType.Some? && TypeFromString(retType.value) == info.retType
    && forall i :: 0 <= i < |argv| ==> argv[i].Some? && TypeFromString(argv[i].value) == info.argvType[i]
  }

  /** dynamic_call_do_typecheck. A NULL type string is `None`. */
  method DoTypecheck(info: TypeInfo, retType: Option<string>, argv: seq<Option<string>>)
    returns (ok: bool)
    requires |info.argvType| == info.argc
    ensures ok <==> SignatureMatches(info, retType, argv)
  {
    if |argv| != info.argc {
      return false;
    }
    if retType.None? {
      return false;
    }
    var r := GetTypeFromString(retType.value);
    if r != info.retType {
      return false;
    }
    var i := 0;
    while i != |argv|
      invariant 0 <= i <= |argv|
      invariant forall k :: 0 <= k < i ==> argv[k].Some? && TypeFromString(argv[k].value) == info.argvType[k]
    {
      if argv[i].None? {
        return false;
      }
      var t := GetTypeFromString(argv[i].value);
      if t != info.argvType[i] {
        return false;
      }
      i := i + 1;
    }
    return true;
  }

  /** The type information built for a signature accepts a call whose type
      strings classify the same way, and only such calls. */
  lemma TypecheckAgainstCreated(info: TypeInfo, retType: string, argv: seq<string>,
                                callRet: string, callArgv: seq<string>)
    requires Describes(info, retType, argv)
    ensures SignatureMatches(info, Some(callRet), seq(|callArgv|, i requires 0 <= i < |callArgv| => Some(callArgv[i])))
        <==> (&& |callArgv| == |argv|
              && TypeFromString(callRet) == TypeFromString(retType)
              && forall i :: 0 <= i < |argv| ==> TypeFromString(callArgv[i]) == TypeFromString(argv[i]))
  {
  }

  /** In particular the signature a type info was built from passes. */
  lemma TypecheckAcceptsOwnSignature(info: TypeInfo, retType: string, argv: seq<string>)
    requires Describes(info, retType, argv)
    ensures SignatureMatches(info, Some(retType), seq(|argv|, i requires 0 <= i < |argv| => Some(argv[i])))
  {
    TypecheckAgainstCreated(info, retType, argv, retType, argv);
  }

  // ---------------------------------------------------------------------
  // Properties of the classification

  /** Every integer spelling that is a pointer is rejected; every other one
      is an integer kind, unsigned exactly when the string contains `u`. */
  lemma IntegerClassification(t: string)
    requires Contains(t, "int")
    ensures '*' in t ==> TypeFromString(t) == TypeUnknown
    ensures '*' !in t ==> TypeInt8 <= TypeFromString(t) <= TypeUIntPtr
    ensures '*' !in t ==> (TypeFromString(t) % 2 == 1 <==> 'u' in t)
  {
  }

  lemma {:induction false} StarCountAppend(a: string, b: string)
    ensures StarCount(a + b) == StarCount(a) + StarCount(b)
    decreases |b|
  {
    if b == [] {
      assert a + b == a;
    } else {
      var b' := b[..|b| - 1];
      assert (a + b)[..|a + b| - 1] == a + b';
      StarCountAppend(a, b');
    }
  }

  lemma {:induction false} NoStarsCountZero(s: string)
    requires '*' !in s
    ensures StarCount(s) == 0
    decreases |s|
  {
    if s != [] {
      NoStarsCountZero(s[..|s| - 1]);
    }
  }

  /** Prefixing a `u` to a signed integer spelling (`int8_t` to `uint8_t`)
      yields exactly the next kind: the unsigned counterpart. */
  lemma UnsignedPrefixAddsOne(t: string)
    requires Contains(t, "int") && '*' !in t && 'u' !in t
    ensures TypeFromString("u" + t) == TypeFromString(t) + 1
    ensures TypeFromString(t) % 2 == 0
  {
    var u := "u" + t;
    ContainsSkipsPrefix("u", t, "int");
    ContainsSkipsPrefix("u", t, "intptr");
    ContainsSkipsPrefix("u", t, "8");
    ContainsSkipsPrefix("u", t, "16");
    ContainsSkipsPrefix("u", t, "32");
    ContainsSkipsPrefix("u", t, "64");
    assert '*' !in u;
    assert u[0] == 'u';
  }

  /** A `wchar_t` spelling is a wide string exactly when it has one `*`. */
  lemma WideCharClassification(t: string)
    requires Contains(t, "wchar_t") && !Contains(t, "int")
    ensures TypeFromString(t) == TypeWString <==> StarCount(t) == 1
    ensures TypeFromString(t) != TypeWString ==> TypeFromString(t) == TypeUnknown
  {
  }

  /** `char`, `char*` and `char**`, as the unit tests of the module list
      them. */
  lemma CharClassifications(c: string, c1: string, c2: string)
    requires c == "char" && c1 == "char*" && c2 == "char**"
    ensures TypeFromString(c) == TypeInt8
    ensures TypeFromString(c1) == TypeString
    ensures TypeFromString(c2) == TypeUnknown
  {
    assert StarCount(c) == 0 && StarCount(c1) == 1 && StarCount(c2) == 2 by {
      assert c1 == c + "*" && c2 == c1 + "*";
      NoStarsCountZero(c);
      NoStarsCountZero("");
      StarCountAppend(c, "*");
      StarCountAppend(c1, "*");
      assert StarCount("*") == StarCount("") + 1;
    }
    assert Contains(c, "char") && Contains(c1, "char") && Contains(c2, "char") by {
      ContainsAt(c, "char", 0);
      ContainsAt(c1, "char", 0);
      ContainsAt(c2, "char", 0);
    }
    assert !Contains(c2, "int") && !Contains(c2, "wchar_t") by {
      AbsentFirstChar(c2, "int");
      AbsentFirstChar(c2, "wchar_t");
    }
    assert !Contains(c1, "int") && !Contains(c1, "wchar_t") by {
      AbsentFirstChar(c1, "int");
      AbsentFirstChar(c1, "wchar_t");
    }
    assert !Contains(c, "int") && !Contains(c, "wchar_t") by {
      AbsentFirstChar(c, "int");
      AbsentFirstChar(c, "wchar_t");
    }
    assert 'u' !in c;
  }

  lemma CharBranch(t: string)
    requires !Contains(t, "int") && !Contains(t, "wchar_t") && Contains(t, "char")
    ensures StarCount(t) == 0 && 'u' in t ==> TypeFromString(t) == TypeUInt8
  {
  }

  /** `unsigned char` is the unsigned 8-bit kind: its `i` is not the start of
      `int`. */
  lemma UnsignedCharClassification(t: string)
    requires t == "unsigned char"
    ensures TypeFromString(t) == TypeUInt8
  {
    assert !Contains(t, "int") by {
      var p, q := "uns", "igned char";
      assert t == p + q;
      assert 'i' !in q[1..];
      forall i | 0 <= i <= |q|
        ensures !OccursAt(q, "int", i)
      {
        if i + 3 > |q| {
        } else if i == 0 {
          assert q[i..i + 3][1] == 'g';
        } else {
          assert q[i..i + 3][0] == q[1..][i - 1];
        }
      }
      ContainsSkipsPrefix(p, q, "int");
    }
    assert !Contains(t, "wchar_t") by {
      AbsentFirstChar(t, "wchar_t");
    }
    assert Contains(t, "char") by {
      ContainsAt(t, "char", 9);
    }
    assert StarCount(t) == 0 by {
      NoStarsCountZero(t);
    }
    assert t[0] == 'u';
    CharBranch(t);
  }

  /** `wchar_t*` is a wide string, `wchar_t**` is not. */
  lemma WideCharExamples(w: string, w1: string, w2: string)
    requires w == "wchar_t" && w1 == "wchar_t*" && w2 == "wchar_t**"
    ensures TypeFromString(w1) == TypeWString
    ensures TypeFromString(w2) == TypeUnknown
  {
    assert StarCount(w1) == 1 && StarCount(w2) == 2 by {
      assert w1 == w + "*" && w2 == w1 + "*";
      NoStarsCountZero(w);
      NoStarsCountZero("");
      StarCountAppend(w, "*");
      StarCountAppend(w1, "*");
      assert StarCount("*") == StarCount("") + 1;
    }
    assert Contains(w1, "wchar_t") && Contains(w2, "wchar_t") by {
      ContainsAt(w1, "wchar_t", 0);
      ContainsAt(w2, "wchar_t", 0);
    }
    assert !Contains(w1, "int") && !Contains(w2, "int") by {
      AbsentFirstChar(w1, "int");
      AbsentFirstChar(w2, "int");
    }
  }

  /** Plain `int` is the signed 32-bit kind and `int*` is rejected. */
  lemma PlainIntExamples(t: string, p: string)
    requires t == "int" && p == "int*"
    ensures TypeFromString(t) == TypeInt32
    ensures TypeFromString(p) == TypeUnknown
  {
    assert Contains(t, "int") && Contains(p, "int") by {
      ContainsAt(t, "int", 0);
      ContainsAt(p, "int", 0);
    }
    assert !Contains(t, "intptr");
    assert !Contains(t, "8") && !Contains(t, "16") && !Contains(t, "32") && !Contains(t, "64") by {
      AbsentFirstChar(t, "8");
      AbsentFirstChar(t, "16");
      AbsentFirstChar(t, "32");
      AbsentFirstChar(t, "64");
    }
    assert '*' in p by {
      assert p[3] == '*';
    }
  }

  /** `int64_t` is the signed 64-bit kind. */
  lemma Int64Example(t: string)
    requires t == "int64_t"
    ensures TypeFromString(t) == TypeInt64
  {
    assert Contains(t, "int") && Contains(t, "64") by {
      ContainsAt(t, "int", 0);
      ContainsAt(t, "64", 3);
    }
    assert !Contains(t, "intptr") by {
      forall i | 0 <= i <= |t|
        ensures !OccursAt(t, "intptr", i)
      {
        if i + 6 <= |t| {
          assert t[i..i + 6][3] != "intptr"[3];
        }
      }
    }
    assert !Contains(t, "8") && !Contains(t, "16") && !Contains(t, "32") by {
      AbsentFirstChar(t, "8");
      AbsentFirstChar(t, "16");
      AbsentFirstChar(t, "32");
    }
    assert 'u' !in t && '*' !in t;
  }

  /** `uint16_t` is the unsigned 16-bit kind. */
  lemma UInt16Example(t: string)
    requires t == "uint16_t"
    ensures TypeFromString(t) == TypeUInt16
  {
    assert Contains(t, "int") && Contains(t, "16") by {
      assert t[1..4] == "int" by {
        assert t[1] == 'i' && t[2] == 'n' && t[3] == 't';
      }
      ContainsAt(t, "int", 1);
      ContainsAt(t, "16", 4);
    }
    assert !Contains(t, "intptr") && !Contains(t, "8") by {
      forall i | 0 <= i <= |t|
        ensures !OccursAt(t, "intptr", i)
      {
        if i + 6 <= |t| {
          assert t[i..i + 6][3] != "intptr"[3];
        }
      }
      AbsentFirstChar(t, "8");
    }
    assert t[0] == 'u' && '*' !in t;
  }

  /** `float` is the floating-point kind. */
  lemma FloatExample(t: string)
    requires t == "float"
    ensures TypeFromString(t) == TypeFloat
  {
    assert Contains(t, "float") by {
      ContainsAt(t, "float", 0);
    }
    assert !Contains(t, "int") && !Contains(t, "wchar_t") && !Contains(t, "char") by {
      AbsentFirstChar(t, "int");
      AbsentFirstChar(t, "wchar_t");
      AbsentFirstChar(t, "char");
    }
    assert '*' !in t;
  }

  /** A pointer to double is rejected. */
  lemma DoublePointerExample(t: string)
    requires t == "double*"
    ensures TypeFromString(t) == TypeUnknown
  {
    assert Contains(t, "double") by {
      ContainsAt(t, "double", 0);
    }
    assert !Contains(t, "int") && !Contains(t, "wchar_t") by {
      AbsentFirstChar(t, "int");
      AbsentFirstChar(t, "wchar_t");
    }
    assert !Contains(t, "char") && !Contains(t, "float") by {
      AbsentFirstChar(t, "char");
      AbsentFirstChar(t, "float");
    }
    assert t[6] == '*';
  }

  /** `void` is the kind of a function without a result. */
  lemma VoidExample(t: string)
    requires t == "void"
    ensures TypeFromString(t) == TypeNone
  {
    assert Contains(t, "void") by {
      ContainsAt(t, "void", 0);
    }
    assert !Contains(t, "int") by {
      forall i | 0 <= i <= |t|
        ensures !OccursAt(t, "int", i)
      {
        if i + 3 <= |t| {
          assert t[i..i + 3][0] != 'i';
        }
      }
    }
    assert !Contains(t, "wchar_t") && !Contains(t, "char") by {
      AbsentFirstChar(t, "wchar_t");
      AbsentFirstChar(t, "char");
    }
    assert !Contains(t, "float") && !Contains(t, "double") by {
      AbsentFirstChar(t, "float");
      ShorterNotContains(t, "double");
    }
    assert '*' !in t;
  }

  /** A name none of the markers matches is unknown. */
  lemma ShortExample(t: string)
    requires t == "short"
    ensures TypeFromString(t) == TypeUnknown
  {
    assert !Contains(t, "int") && !Contains(t, "wchar_t") && !Contains(t, "char") by {
      AbsentFirstChar(t, "int");
      AbsentFirstChar(t, "wchar_t");
      AbsentFirstChar(t, "char");
    }
    assert !Contains(t, "float") && !Contains(t, "double") && !Contains(t, "void") by {
      AbsentFirstChar(t, "float");
      AbsentFirstChar(t, "double");
      AbsentFirstChar(t, "void");
    }
  }
}
