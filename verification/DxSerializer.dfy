/** dx_jsonSerialize: key/value pairs into an object, its text into the caller's buffer. */
module DxSerializer {
  import opened Items
  import opened Magnitudes
  import opened Numbers
  import opened Values
  import opened Printer
  import opened Serializer
  import opened Strings
  import opened Literals
  import Utf8
  import Parser
  import Layout
  import T = ObjectTable

  /** A double is finite, and then stands for its literal, or it is a NaN or an infinity. */
  datatype Double = Finite(literal: string) | NonFinite

  /** An argument; a null string pointer is None. */
  datatype Argument =
    | IntArg(i: int)
    | DoubleArg(d: Double)                 // DX_JSON_LONG, DX_JSON_FLOAT and DX_JSON_DOUBLE
    | StringArg(s: Option<string>)
    | BoolArg(b: int)

  /** A null key is None. */
  datatype Pair = Pair(key: Option<string>, argument: Argument)

  /** What the C types and the NUL terminators guarantee. */
  ghost predicate IsPair(p: Pair) {
    (p.key.Some? ==> IsName(p.key.value)) &&
    match p.argument
    case IntArg(i) => -0x8000_0000 <= i < 0x8000_0000
    case DoubleArg(Finite(literal)) => IsNumber(literal)
    case StringArg(Some(s)) => '\0' !in s
    case _ => true
  }

  ghost predicate ArePairs(pairs: seq<Pair>) {
    forall k :: 0 <= k < |pairs| ==> IsPair(pairs[k])
  }

  // ---------------------------------------------------------------- integers

  /** `%1.17g` of an integer with fewer than 17 digits. */
  function IntLiteral(i: int): string {
    if i < 0 then "-" + Digits(-i) else Digits(i)
  }

  /** The literal of an int is one that the serializer prints, and it means the int. */
  lemma IntLiteralMeans(i: int)
    requires -0x8000_0000 <= i < 0x8000_0000
    ensures IsNumber(IntLiteral(i)) && Meaning(IntLiteral(i)) == i as real
  {
    hide Digits, Meaning, IsG17;
    Tens();
    IntegerMeans(i < 0, if i < 0 then -i else i);
    assert IntLiteral(i) == Literal(i < 0, Digits(if i < 0 then -i else i), "", "");
  }

  // ---------------------------------------------------------------- what the pairs mean

  /** The value a constructor makes of an argument; None when it refuses. */
  function Made(a: Argument): Option<Value> {
    match a
    case IntArg(i) => Some(Number(IntLiteral(i)))
    case DoubleArg(Finite(literal)) => Some(Number(literal))
    case DoubleArg(NonFinite) => None
    case StringArg(Some(s)) => if Utf8.Valid(s) then Some(String(s)) else None
    case StringArg(None) => None
    case BoolArg(b) => Some(Bool(b != 0))
  }

  /** The members after all pairs. */
  function Fold(pairs: seq<Pair>): seq<Item<Value>> {
    if pairs == [] then []
    else
      var last := pairs[|pairs| - 1];
      var before := Fold(pairs[..|pairs| - 1]);
      var v := Made(last.argument);
      if last.key.None? || v.None? then before else Set(before, last.key.value, v.value)
  }

  predicate Accepted(p: Pair, key: string) {
    p.key == Some(key) && Made(p.argument).Some?
  }

  /** The first pair for the key with an acceptable value, or the number of pairs. */
  function FirstFor(pairs: seq<Pair>, key: string): (k: nat)
    ensures k <= |pairs| && (k < |pairs| ==> Accepted(pairs[k], key))
    ensures forall j :: 0 <= j < k ==> !Accepted(pairs[j], key)
  {
    if pairs == [] then 0 else if Accepted(pairs[0], key) then 0 else 1 + FirstFor(pairs[1..], key)
  }

  /** The last one's value. */
  function LastFor(pairs: seq<Pair>, key: string): Option<Value> {
    if pairs == [] then None
    else
      var last := pairs[|pairs| - 1];
      if Accepted(last, key) then Made(last.argument) else LastFor(pairs[..|pairs| - 1], key)
  }

  /** The last acceptable value for a key wins. */
  lemma {:induction false} LastWins(pairs: seq<Pair>, key: string)
    ensures Lookup(Fold(pairs), key) == LastFor(pairs, key)
  {
    if pairs != [] {
      var last := pairs[|pairs| - 1];
      LastWins(pairs[..|pairs| - 1], key);
      var v := Made(last.argument);
      if v.Some? && last.key.Some? { SetLookup(Fold(pairs[..|pairs| - 1]), last.key.value, v.value, key); }
    }
  }

  /** What the json_object_set functions take: anything but a NaN, an infinity, a null string
      and a string that is not valid UTF-8. */
  predicate Takes(a: Argument) {
    match a
    case IntArg(_) => true
    case DoubleArg(d) => d.Finite?
    case StringArg(s) => s.Some? && Utf8.Valid(s.value)
    case BoolArg(_) => true
  }

  /** The value is the argument, by its type. */
  ghost predicate Stands(v: Value, a: Argument) {
    match a
    case IntArg(i) => v.Number? && IsNumber(v.literal) && Meaning(v.literal) == i as real
    case DoubleArg(d) => d.Finite? && v == Number(d.literal)
    case StringArg(s) => s.Some? && v == String(s.value)
    case BoolArg(b) => (v == Bool(true) <==> b != 0) && (v == Bool(false) <==> b == 0)
  }

  lemma MadeStands(p: Pair)
    requires IsPair(p)
    ensures Made(p.argument).Some? <==> Takes(p.argument)
    ensures Takes(p.argument) ==> Stands(Made(p.argument).value, p.argument)
  {
    hide IsNumber, Meaning, IntLiteral, Utf8.Valid;
    if p.argument.IntArg? { IntLiteralMeans(p.argument.i); }
  }

  lemma {:induction false} LastForIs(pairs: seq<Pair>, key: string, k: nat)
    requires ArePairs(pairs) && k < |pairs| && pairs[k].key == Some(key) && Takes(pairs[k].argument)
    requires forall j :: k < j < |pairs| && pairs[j].key == Some(key) ==> !Takes(pairs[j].argument)
    ensures LastFor(pairs, key) == Made(pairs[k].argument)
  {
    hide Made, Takes, Stands, IsPair;
    var last := |pairs| - 1;
    MadeStands(pairs[last]);
    if k < last { LastForIs(pairs[..last], key, k); }
  }

  /** The object holds, for each key, the last argument that is taken, as what it is. */
  lemma ObjectHolds(pairs: seq<Pair>, key: string, k: nat)
    requires ArePairs(pairs) && k < |pairs| && pairs[k].key == Some(key) && Takes(pairs[k].argument)
    requires forall j :: k < j < |pairs| && pairs[j].key == Some(key) ==> !Takes(pairs[j].argument)
    ensures var held := Lookup(Fold(pairs), key);
            held.Some? &&
            match pairs[k].argument
            case IntArg(i) =>
              held.value.Number? && IsNumber(held.value.literal) && Meaning(held.value.literal) == i as real
            case DoubleArg(d) => d.Finite? && held.value == Number(d.literal)
            case StringArg(s) => s.Some? && held.value == String(s.value)
            case BoolArg(b) => (held.value == Bool(true) <==> b != 0) && (held.value == Bool(false) <==> b == 0)
  {
    hide Made, Takes, IsPair, Fold, LastFor, Find, IsNumber, Meaning;
    LastWins(pairs, key);
    LastForIs(pairs, key, k);
    MadeStands(pairs[k]);
  }

  /** And nothing for a key without such an argument. */
  lemma ObjectLacks(pairs: seq<Pair>, key: string)
    requires ArePairs(pairs) && forall j :: 0 <= j < |pairs| && pairs[j].key == Some(key) ==> !Takes(pairs[j].argument)
    ensures Lookup(Fold(pairs), key) == None
  {
    hide Made, Takes, IsPair, Fold, Find;
    LastWins(pairs, key);
    NoneFor(pairs, key);
  }

  lemma {:induction false} NoneFor(pairs: seq<Pair>, key: string)
    requires ArePairs(pairs) && forall j :: 0 <= j < |pairs| && pairs[j].key == Some(key) ==> !Takes(pairs[j].argument)
    ensures LastFor(pairs, key) == None
  {
    hide Made, Takes, Stands, IsPair;
    if pairs != [] {
      MadeStands(pairs[|pairs| - 1]);
      NoneFor(pairs[..|pairs| - 1], key);
    }
  }

  /** An example: a single bool. */
  lemma BoolText(b: int, slashes: bool)
    ensures var text := Print(Object(Fold([Pair(Some("k"), BoolArg(b))])), 0, false, slashes);
            && (text == "{\"k\":true}" <==> b != 0)
            && (text == "{\"k\":false}" <==> b == 0)
  {
    hide Print, Quote, Fold, ScalarText;
    OnePair("k", BoolArg(b));
    OneMemberText("k", Bool(b != 0), slashes);
    PlainIsUnchanged("k", slashes);
    BoolTexts(b != 0, slashes);
  }

  lemma BoolTexts(b: bool, slashes: bool)
    ensures var text := "{" + ("\"" + "k" + "\"" + (":" + (ScalarText(Bool(b), slashes) + "}")));
            (text == "{\"k\":true}" <==> b) && (text == "{\"k\":false}" <==> !b)
  {
    if b {
      assert "{" + ("\"k\"" + (":" + ("true" + "}"))) == "{\"k\":true}";
    } else {
      assert "{" + ("\"k\"" + (":" + ("false" + "}"))) == "{\"k\":false}";
    }
    assert |"{\"k\":true}"| != |"{\"k\":false}"|;
  }

  lemma OnePair(key: string, a: Argument)
    requires Made(a).Some?
    ensures Fold([Pair(Some(key), a)]) == [Item(key, Made(a).value)]
  {
    var pairs := [Pair(Some(key), a)];
    assert pairs[..0] == [] && Fold(pairs[..0]) == [];
  }

  lemma OneMemberText(name: string, v: Value, slashes: bool)
    requires Layout.IsScalar(v)
    ensures Print(Object([Item(name, v)]), 0, false, slashes)
            == "{" + (Quote(name, slashes) + (":" + (ScalarText(v, slashes) + "}")))
  {
    hide Quote, ScalarText;
    var m := [Item(name, v)];
    var q, t := Quote(name, slashes), ScalarText(v, slashes);
    assert m[1..] == [] && PrintMembers(m[1..], 0, false, slashes) == "";
    assert PrintMembers(m, 0, false, slashes) == "" + q + ":" + "" + t + "" + "" + "";
    Compacted(q, t);
  }

  lemma Compacted(q: string, t: string)
    ensures "{" + "" + ("" + q + ":" + "" + t + "" + "" + "") + "" + "}" == "{" + (q + (":" + (t + "}")))
  {
  }

  lemma FirstForIs(pairs: seq<Pair>, key: string, k: nat)
    requires k <= |pairs| && (k < |pairs| ==> Accepted(pairs[k], key))
    requires forall j :: 0 <= j < k ==> !Accepted(pairs[j], key)
    ensures FirstFor(pairs, key) == k
  {
  }

  /** One more pair. */
  lemma FirstForMore(front: seq<Pair>, last: Pair, pairs: seq<Pair>, key: string)
    requires pairs == front + [last]
    ensures FirstFor(pairs, key) ==
            if FirstFor(front, key) < |front| then FirstFor(front, key)
            else if Accepted(last, key) then |front| else |front| + 1
  {
    var f := FirstFor(front, key);
    FirstForIs(pairs, key, if f < |front| then f else if Accepted(last, key) then |front| else |front| + 1);
  }

  /** A set keeps the names there are and may put a new one at the end. */
  lemma SetNames(items: seq<Item<Value>>, name: string, value: Value)
    requires Distinct(items)
    ensures var r := Set(items, name, value);
            && Distinct(r)
            && |r| == (if Has(items, name) then |items| else |items| + 1)
            && (forall i :: 0 <= i < |items| ==> r[i].name == items[i].name)
            && (!Has(items, name) ==> r[|items|].name == name)
            && forall x :: Has(r, x) <==> Has(items, x) || x == name
  {
    forall x ensures Has(Set(items, name, value), x) <==> Has(items, x) || x == name {
      SetLookup(items, name, value, x);
    }
  }

  /** The items have exactly the keys with an acceptable value, in the order in which each
      first had one. */
  ghost predicate InPlace(items: seq<Item<Value>>, pairs: seq<Pair>) {
    && Distinct(items)
    && (forall key :: Has(items, key) <==> FirstFor(pairs, key) < |pairs|)
    && forall i, j :: 0 <= i < j < |items| ==> FirstFor(pairs, items[i].name) < FirstFor(pairs, items[j].name)
  }

  /** The object has exactly the keys with an acceptable value, in the order in which each
      first had one. */
  lemma {:induction false} FirstKeepsItsPlace(pairs: seq<Pair>)
    ensures Distinct(Fold(pairs))
    ensures forall key :: Has(Fold(pairs), key) <==> FirstFor(pairs, key) < |pairs|
    ensures forall i, j :: 0 <= i < j < |Fold(pairs)| ==>
              FirstFor(pairs, Fold(pairs)[i].name) < FirstFor(pairs, Fold(pairs)[j].name)
  {
    hide FirstFor, Find, Made, Set, Has;
    if pairs == [] {
      NothingIn();
    } else {
      var front, last := pairs[..|pairs| - 1], pairs[|pairs| - 1];
      FirstKeepsItsPlace(front);
      if last.key.None? || Made(last.argument).None? {
        PassedOver(Fold(front), front, last, pairs);
      } else {
        OneMorePlaced(Fold(front), front, last, pairs);
      }
    }
  }

  lemma PassedOver(items: seq<Item<Value>>, front: seq<Pair>, last: Pair, pairs: seq<Pair>)
    requires InPlace(items, front) && pairs == front + [last] && (last.key.None? || Made(last.argument).None?)
    ensures InPlace(items, pairs)
  {
    hide FirstFor, Find, Made, Has;
    forall key
      ensures FirstFor(pairs, key) == if FirstFor(front, key) < |front| then FirstFor(front, key) else |pairs|
    {
      FirstForMore(front, last, pairs, key);
    }
    forall i | 0 <= i < |items| ensures FirstFor(front, items[i].name) < |front| { HasAt(items, i); }
  }

  lemma OneMorePlaced(items: seq<Item<Value>>, front: seq<Pair>, last: Pair, pairs: seq<Pair>)
    requires InPlace(items, front) && pairs == front + [last] && last.key.Some? && Made(last.argument).Some?
    ensures InPlace(Set(items, last.key.value, Made(last.argument).value), pairs)
  {
    hide FirstFor, Find, Made, Set, Has;
    var name := last.key.value;
    forall key
      ensures FirstFor(pairs, key) ==
              if FirstFor(front, key) < |front| then FirstFor(front, key)
              else if key == name then |front| else |pairs|
    {
      FirstForMore(front, last, pairs, key);
    }
    SetNames(items, name, Made(last.argument).value);
    forall i | 0 <= i < |items| ensures FirstFor(front, items[i].name) < |front| { HasAt(items, i); }
  }

  lemma NothingIn()
    ensures forall name :: !Has<Value>([], name)
  {
  }

  lemma HasAt(items: seq<Item<Value>>, i: nat)
    requires i < |items|
    ensures Has(items, items[i].name)
  {
  }

  lemma {:induction false} FoldWellFormed(pairs: seq<Pair>)
    requires ArePairs(pairs)
    ensures WellFormed(Object(Fold(pairs))) && Depth(Object(Fold(pairs))) <= 1
    ensures forall i :: 0 <= i < |Fold(pairs)| ==> Layout.IsScalar(Fold(pairs)[i].value)
  {
    hide Find, IsNumber, IntLiteral, Depth;
    if pairs != [] {
      var front, last := pairs[..|pairs| - 1], pairs[|pairs| - 1];
      FoldWellFormed(front);
      var v := Made(last.argument);
      if v.Some? {
        if last.argument.IntArg? { IntLiteralMeans(last.argument.i); }
      }
    }
    FlatDepth(Fold(pairs));
  }

  lemma {:induction false} FlatDepth(members: seq<Item<Value>>)
    requires forall i :: 0 <= i < |members| ==> Layout.IsScalar(members[i].value)
    ensures Depth(Object(members)) <= 1
  {
    if members != [] {
      FlatDepth(members[1..]);
      assert Depth(Object(members[1..])) == MembersDepth(members[1..]);
      ConsMembersDepth(members, members[0], members[1..]);
    }
  }

  // ---------------------------------------------------------------- strings in buffers

  /** strlen. */
  method StrLen(s: array<char>, ghost t: string) returns (n: nat)
    requires '\0' !in t && s[..] == t + "\0"
    ensures n == |t|
  {
    n := 0;
    assert forall k :: 0 <= k < |t| ==> s[k] == t[k] && t[k] != '\0';
    while s[n] != '\0'
      invariant n <= |t|
      decreases |t| - n
    {
      n := n + 1;
    }
  }

  function Nuls(n: nat): (t: string)
    ensures |t| == n && forall k :: 0 <= k < n ==> t[k] == '\0'
  {
    seq(n, _ => '\0')
  }

  /** What strncpy of the string t and a NUL at the last place leave in `length` bytes. */
  function Copied(t: string, length: nat): (r: string)
    requires length > 0
    ensures |r| == length && r[length - 1] == '\0'
  {
    if |t| < length then t + Nuls(length - |t|) else t[..length - 1] + "\0"
  }

  /** strncpy: copies up to the NUL, and fills up with NULs. */
  method StrNCpy(dest: array<char>, source: array<char>, length: nat, ghost t: string)
    requires dest != source && length <= dest.Length && '\0' !in t && source[..] == t + "\0"
    modifies dest
    ensures forall k :: 0 <= k < length ==> dest[k] == if k < |t| then t[k] else '\0'
    ensures dest[length..] == old(dest[length..])
  {
    assert forall k :: 0 <= k < |t| ==> source[k] == t[k] && t[k] != '\0';
    var i := 0;
    while i < length && source[i] != '\0'
      invariant i <= |t| && i <= length && source[..] == t + "\0"
      invariant (forall k :: 0 <= k < i ==> dest[k] == t[k]) && dest[length..] == old(dest[length..])
      decreases length - i
    {
      dest[i] := source[i];
      i := i + 1;
    }
    ghost var n := i;
    while i < length
      invariant n <= i <= length && (n < length ==> n == |t|)
      invariant forall k :: 0 <= k < i ==> dest[k] == if k < |t| then t[k] else '\0'
      invariant dest[length..] == old(dest[length..])
    {
      dest[i] := '\0';
      i := i + 1;
    }
  }

  /** DX_SAFE_STRING_COPY: strncpy, which cuts a string that is too long, and a NUL at the last
      place. */
  method SafeStringCopy(dest: array<char>, source: array<char>, length: nat, ghost t: string)
    requires dest != source && 0 < length <= dest.Length && '\0' !in t && source[..] == t + "\0"
    modifies dest
    ensures dest[..] == Copied(t, length) + old(dest[length..])
  {
    StrNCpy(dest, source, length, t);
    dest[length - 1] := '\0';
    assert dest[..length] == Copied(t, length);
    assert dest[..] == dest[..length] + dest[length..];
  }

  // ---------------------------------------------------------------- dx_jsonSerialize

  method JsonSerialize(buffer: array<char>, bufferSize: nat, pairs: seq<Pair>, slashes: bool) returns (result: bool)
    requires bufferSize <= buffer.Length && ArePairs(pairs)
    modifies buffer
    ensures var t := Print(Object(Fold(pairs)), 0, false, slashes);
            && result == (|t| < bufferSize)
            && buffer[..] == if result then t + Nuls(bufferSize - |t|) + old(buffer[bufferSize..]) else old(buffer[..])
    ensures result ==> Parser.ParseText(buffer[..]) == Some(Object(Fold(pairs)))
  {
    hide Print, WellFormed, Depth, Parser.ParseText, Fold, Copied, Nuls;
    ghost var v := Object(Fold(pairs));
    ghost var t := Print(v, 0, false, slashes);
    FoldWellFormed(pairs);
    PrintIsCString(v, 0, false, slashes);
    var members := BuildObject(pairs);
    var text := SerializeToString(Object(members), false, slashes);
    var n := StrLen(text, t);
    result := false;
    if n < bufferSize {
      SafeStringCopy(buffer, text, bufferSize, t);
      result := true;
      ghost var behind := Nuls(bufferSize - |t|) + old(buffer[bufferSize..]);
      CopiedFits(t, bufferSize, old(buffer[bufferSize..]));
      ParsesBack(v, slashes, behind);
    }
  }

  lemma CopiedFits(t: string, length: nat, behind: string)
    requires |t| < length
    ensures Copied(t, length) + behind == t + (Nuls(length - |t|) + behind)
    ensures Copied(t, length) + behind == t + Nuls(length - |t|) + behind
  {
  }

  /** The loop over the arguments. */
  method BuildObject(pairs: seq<Pair>) returns (members: seq<Item<Value>>)
    requires ArePairs(pairs)
    ensures members == Fold(pairs)
  {
    hide T.Consistent, T.IsCapacity, T.Separate, Made, Fold, IsNumber, IntLiteral;
    var table := new T.ObjectTable<Value>(0);
    NoPairs(pairs);
    for i := 0 to |pairs|
      invariant table.Valid() && fresh(table.Repr())
      invariant table.items == Fold(pairs[..i])
    {
      FoldNext(pairs, i);
      Put(table, pairs[i]);
    }
    assert pairs[..|pairs|] == pairs;
    members := table.Snapshot();
  }

  /** One pair: a json_object_set function. */
  method Put(table: T.ObjectTable<Value>, p: Pair)
    requires table.Valid() && IsPair(p)
    modifies table.Repr()
    ensures table.Valid() && fresh(table.Repr() - old(table.Repr()))
    ensures var v := Made(p.argument);
            table.items ==
            if p.key.None? || v.None? then old(table.items) else Set(old(table.items), p.key.value, v.value)
  {
    hide T.Consistent, T.IsCapacity, T.Separate, Made, IsNumber, IntLiteral;
    var v := Construct(p.argument);
    if p.key.Some? && v.Some? {
      table.SetValue(p.key.value, v.value);
    }
  }

  lemma NoPairs(pairs: seq<Pair>)
    ensures Fold(pairs[..0]) == []
  {
  }

  lemma FoldNext(pairs: seq<Pair>, i: nat)
    requires i < |pairs|
    ensures var v := Made(pairs[i].argument);
            Fold(pairs[..i + 1]) ==
            if pairs[i].key.None? || v.None? then Fold(pairs[..i])
            else Set(Fold(pairs[..i]), pairs[i].key.value, v.value)
  {
    assert pairs[..i + 1][..i] == pairs[..i];
  }

  /** The json_value_init functions; strings are checked with is_valid_utf8, which cannot
      see past the terminator here. */
  method Construct(a: Argument) returns (v: Option<Value>)
    requires a.StringArg? && a.s.Some? ==> '\0' !in a.s.value
    ensures v == Made(a)
    ensures a.BoolArg? ==> (v == Some(Bool(true)) <==> a.b != 0) && (v == Some(Bool(false)) <==> a.b == 0)
    ensures a.StringArg? ==>
              v == if a.s.Some? && Utf8.Valid(a.s.value) then Some(String(a.s.value)) else None
    ensures a.DoubleArg? ==> v == if a.d.Finite? then Some(Number(a.d.literal)) else None
  {
    match a {
      case IntArg(i) => v := Some(Number(IntLiteral(i)));
      case DoubleArg(d) => v := if d.Finite? then Some(Number(d.literal)) else None;
      case StringArg(s) =>
        if s.None? {
          return None;
        }
        var valid := Utf8.IsValidUtf8(s.value, |s.value|);
        Utf8.ValidFromExact(s.value, |s.value|);
        assert s.value[..|s.value|] == s.value;
        v := if valid then Some(String(s.value)) else None;
      case BoolArg(b) => v := Some(Bool(b != 0));
    }
  }

  lemma ParsesBack(v: Value, slashes: bool, rest: string)
    requires WellFormed(v) && v.Object? && Depth(v) <= 1
    ensures Parser.ParseText(Print(v, 0, false, slashes) + rest) == Some(v)
  {
    hide Print, WellFormed, Depth, Parser.ParseText;
    PrintsAgree(v, 0, slashes, slashes, rest);
  }
}
