/**
 * The queue configuration (src/Config.php): a value that exists only once
 * every field has passed validation, and the store keys derived from it.
 */
module QueueConfig {
  import opened Wrappers

  /** Largest visibility timeout and delay, in seconds. */
  const MaxSeconds := 9999999
  const MaxNameLength := 160
  /** The maxSize sentinel meaning "no size limit". */
  const Unlimited := -1
  const MinMaxSize := 1024
  const MaxMaxSize := 65536
  /** The namespace a configuration gets when none is given. */
  const DefaultNamespace := "rsmq"

  /** Why construction was refused; the source raises InvalidArgumentException for each. */
  datatype ConfigError =
    | EmptyNamespace
    | NamespaceEndsWithSeparator
    | EmptyName
    | NameTooLong
    | NameBadCharacters
    | VtOutOfRange
    | DelayOutOfRange
    | MaxSizeOutOfRange

  datatype Config = Config(
    namespace: string,
    name: string,
    realtime: bool,
    vt: int,
    delay: int,
    maxSize: int)

  // ---------------------------------------------------------------- trimming

  /** The characters PHP's trim() strips by default: space, \t, \n, \r, NUL and vertical tab. */
  predicate IsBlank(c: char) {
    c == ' ' || c == '\t' || c == '\n' || c == '\r' || c as int == 0 || c as int == 11
  }

  /** s without its leading blanks. */
  function TrimStart(s: string): (r: string)
    ensures |r| <= |s| && r == s[|s| - |r|..]
    ensures r == [] || !IsBlank(r[0])
    ensures forall i :: 0 <= i < |s| - |r| ==> IsBlank(s[i])
  {
    if s != [] && IsBlank(s[0]) then TrimStart(s[1..]) else s
  }

  /** s without its trailing blanks. */
  function TrimEnd(s: string): (r: string)
    ensures |r| <= |s| && r == s[..|r|]
    ensures r == [] || !IsBlank(r[|r| - 1])
    ensures forall i :: |r| <= i < |s| ==> IsBlank(s[i])
  {
    if s != [] && IsBlank(s[|s| - 1]) then TrimEnd(s[..|s| - 1]) else s
  }

  /** PHP's trim(): s without its leading and trailing blanks; it is empty exactly when s is all blanks. */
  function Trim(s: string): (r: string)
    ensures |r| <= |s|
    ensures r == [] || (!IsBlank(r[0]) && !IsBlank(r[|r| - 1]))
  {
    var t := TrimStart(s);
    var r := TrimEnd(t);
    assert r != [] ==> r[0] == t[0];
    r
  }

  /** Trimming leaves nothing exactly when the string is all blanks: setName and setNamespace refuse those. */
  lemma TrimEmptyIffBlank(s: string)
    ensures Trim(s) == [] <==> forall i :: 0 <= i < |s| ==> IsBlank(s[i])
  {
  }

  /** Trimming a string that neither starts nor ends with a blank leaves it alone. */
  lemma TrimmedIsFixed(s: string)
    requires s == [] || (!IsBlank(s[0]) && !IsBlank(s[|s| - 1]))
    ensures Trim(s) == s
  {
  }

  lemma {:induction false} TrimIdempotent(s: string)
    ensures Trim(Trim(s)) == Trim(s)
  {
    var t := TrimStart(s);
    var r := TrimEnd(t);
    if r != [] {
      assert r[0] == t[0];
    }
    TrimmedIsFixed(r);
  }

  // -------------------------------------------------------------- validation

  /** The name pattern [a-zA-Z0-9_-]. */
  predicate IsNameChar(c: char) {
    ('a' <= c <= 'z') || ('A' <= c <= 'Z') || ('0' <= c <= '9') || c == '-' || c == '_'
  }

  predicate ValidName(name: string) {
    0 < |name| <= MaxNameLength && forall i :: 0 <= i < |name| ==> IsNameChar(name[i])
  }

  predicate ValidNamespace(ns: string) {
    ns != [] && ns[|ns| - 1] != ':'
  }

  predicate InSecondsRange(x: int) {
    0 <= x <= MaxSeconds
  }

  predicate ValidMaxSize(x: int) {
    x == Unlimited || MinMaxSize <= x <= MaxMaxSize
  }

  /** What every constructed configuration satisfies. */
  predicate Valid(c: Config) {
    && Trim(c.namespace) == c.namespace
    && ValidNamespace(c.namespace)
    && ValidName(c.name)
    && InSecondsRange(c.vt)
    && InSecondsRange(c.delay)
    && ValidMaxSize(c.maxSize)
  }

  /** setNamespace: trim, then refuse the empty namespace and one ending in ':'. */
  function CheckNamespace(namespace: string): (r: Result<string, ConfigError>)
    ensures r.Success? <==> ValidNamespace(Trim(namespace))
    ensures r.Success? ==> r.value == Trim(namespace)
    ensures r == Failure(EmptyNamespace) <==> Trim(namespace) == []
    ensures r == Failure(NamespaceEndsWithSeparator) <==> Trim(namespace) != [] && !ValidNamespace(Trim(namespace))
  {
    var ns := Trim(namespace);
    if ns == [] then Failure(EmptyNamespace)
    else if ns[|ns| - 1] == ':' then Failure(NamespaceEndsWithSeparator)
    else Success(ns)
  }

  /** setName: trim, then refuse the empty name, a name over 160 bytes, and any other character than [a-zA-Z0-9_-]. */
  function CheckName(name: string): (r: Result<string, ConfigError>)
    ensures r.Success? <==> ValidName(Trim(name))
    ensures r.Success? ==> r.value == Trim(name)
    ensures r == Failure(EmptyName) <==> Trim(name) == []
    ensures r == Failure(NameTooLong) <==> |Trim(name)| > MaxNameLength
    ensures r == Failure(NameBadCharacters) <==>
      Trim(name) != [] && |Trim(name)| <= MaxNameLength && !(forall i :: 0 <= i < |Trim(name)| ==> IsNameChar(Trim(name)[i]))
  {
    var n := Trim(name);
    if n == [] then Failure(EmptyName)
    else if |n| > MaxNameLength then Failure(NameTooLong)
    else if exists i :: 0 <= i < |n| && !IsNameChar(n[i]) then Failure(NameBadCharacters)
    else Success(n)
  }

  /**
   * The Config constructor: the setters run in the order namespace, name,
   * vt, delay, maxSize, and the first one that refuses its argument decides
   * the error.
   */
  function NewConfig(name: string, namespace: string, realtime: bool, vt: int, delay: int, maxSize: int)
    : (r: Result<Config, ConfigError>)
    ensures r.Success? <==>
      ValidNamespace(Trim(namespace)) && ValidName(Trim(name))
      && InSecondsRange(vt) && InSecondsRange(delay) && ValidMaxSize(maxSize)
    ensures r.Success? ==>
      r.value == Config(Trim(namespace), Trim(name), realtime, vt, delay, maxSize) && Valid(r.value)
    ensures !ValidNamespace(Trim(namespace)) ==> r == Failure(CheckNamespace(namespace).error)
    ensures ValidNamespace(Trim(namespace)) && !ValidName(Trim(name)) ==> r == Failure(CheckName(name).error)
    ensures ValidNamespace(Trim(namespace)) && ValidName(Trim(name)) ==>
      (!InSecondsRange(vt) ==> r == Failure(VtOutOfRange))
      && (InSecondsRange(vt) && !InSecondsRange(delay) ==> r == Failure(DelayOutOfRange))
      && (InSecondsRange(vt) && InSecondsRange(delay) && !ValidMaxSize(maxSize) ==> r == Failure(MaxSizeOutOfRange))
  {
    TrimIdempotent(namespace);
    match CheckNamespace(namespace)
    case Failure(e) => Failure(e)
    case Success(ns) =>
      match CheckName(name)
      case Failure(e) => Failure(e)
      case Success(n) =>
        if vt < 0 || vt > MaxSeconds then Failure(VtOutOfRange)
        else if delay < 0 || delay > MaxSeconds then Failure(DelayOutOfRange)
        else if maxSize != Unlimited && (maxSize < MinMaxSize || maxSize > MaxMaxSize) then Failure(MaxSizeOutOfRange)
        else Success(Config(ns, n, realtime, vt, delay, maxSize))
  }

  /**
   * Rebuilding a valid configuration from its own name and namespace with new
   * tunables keeps name, namespace and realtime flag; it fails only on the
   * tunables, and with their first error.
   */
  lemma {:induction false} Reconfigure(c: Config, vt: int, delay: int, maxSize: int)
    requires Valid(c)
    ensures var r := NewConfig(c.name, c.namespace, c.realtime, vt, delay, maxSize);
      && (r.Success? <==> InSecondsRange(vt) && InSecondsRange(delay) && ValidMaxSize(maxSize))
      && (r.Success? ==> r.value == c.(vt := vt, delay := delay, maxSize := maxSize))
      && (r.Failure? ==> r.error in {VtOutOfRange, DelayOutOfRange, MaxSizeOutOfRange})
  {
    assert !IsBlank(c.name[0]) && !IsBlank(c.name[|c.name| - 1]) by {
      assert IsNameChar(c.name[0]) && IsNameChar(c.name[|c.name| - 1]);
    }
    TrimmedIsFixed(c.name);
  }

  /**
   * new Config($name) with every other argument left at its default:
   * namespace "rsmq", realtime, vt 30, delay 0 and maxSize 65536. Only the
   * name can then be refused.
   */
  function DefaultConfig(name: string): (r: Result<Config, ConfigError>)
    ensures r.Success? <==> ValidName(Trim(name))
    ensures r.Success? ==> r.value == Config(DefaultNamespace, Trim(name), true, 30, 0, 65536)
    ensures r.Failure? ==> r.error in {EmptyName, NameTooLong, NameBadCharacters}
  {
    DefaultNamespaceIsValid();
    NewConfig(name, DefaultNamespace, true, 30, 0, 65536)
  }

  lemma DefaultNamespaceIsValid()
    ensures Trim(DefaultNamespace) == DefaultNamespace && ValidNamespace(DefaultNamespace)
  {
    TrimmedIsFixed(DefaultNamespace);
  }

  /** A valid configuration rebuilt from all of its own fields is itself. */
  lemma NewConfigOfValid(c: Config)
    requires Valid(c)
    ensures NewConfig(c.name, c.namespace, c.realtime, c.vt, c.delay, c.maxSize) == Success(c)
  {
    Reconfigure(c, c.vt, c.delay, c.maxSize);
  }

  // ------------------------------------------------------------------- keys

  /** namespaceKey: the namespace, the separator ':' and the key. */
  function NamespaceKey(c: Config, key: string): (k: string)
  {
    c.namespace + ":" + key
  }

  /** getName(namespaced): the bare name, or the namespaced one (the sorted set's key). */
  function GetName(c: Config, namespaced: bool): (k: string)
  {
    if namespaced then NamespaceKey(c, c.name) else c.name
  }

  /** The queue's hash: getName(true) followed by ":Q". */
  function QueueKey(c: Config): (k: string)
  {
    GetName(c, true) + ":Q"
  }

  /** The namespace-wide set of queue names. */
  function RegistryKey(c: Config): (k: string)
  {
    NamespaceKey(c, "QUEUES")
  }

  /** getPublishKey: the realtime channel. */
  function PublishKey(c: Config): (k: string)
  {
    c.namespace + ":rt:" + c.name
  }

  /** A string that splits as ns + ":" + n with n free of ':' splits that way only once. */
  lemma {:induction false} SplitAtLastSeparator(ns1: string, n1: string, ns2: string, n2: string)
    requires forall i :: 0 <= i < |n1| ==> n1[i] != ':'
    requires forall i :: 0 <= i < |n2| ==> n2[i] != ':'
    requires ns1 + ":" + n1 == ns2 + ":" + n2
    ensures ns1 == ns2 && n1 == n2
  {
    var s := ns1 + ":" + n1;
    if |n1| < |n2| {
      // the separator before n1 would fall inside n2
      SeparatorAt(ns1, n1);
      assert false;
    } else if |n2| < |n1| {
      SeparatorAt(ns2, n2);
      assert false;
    }
    assert n1 == s[|s| - |n1|..] == n2;
    assert ns1 == s[..|ns1|] == ns2;
  }

  lemma SeparatorAt(ns: string, n: string)
    ensures (ns + ":" + n)[|ns|] == ':' && |ns + ":" + n| == |ns| + 1 + |n|
  {
  }

  lemma NameHasNoSeparator(c: Config)
    requires Valid(c)
    ensures forall i :: 0 <= i < |c.name| ==> c.name[i] != ':'
  {
    forall i | 0 <= i < |c.name| ensures c.name[i] != ':' {
      assert IsNameChar(c.name[i]);
    }
  }

  /**
   * Two valid configurations share their sorted-set key, their hash key or
   * their publish channel only when they have the same namespace and name:
   * distinct queues never touch each other's keys.
   */
  lemma KeysIdentifyQueue(c1: Config, c2: Config)
    requires Valid(c1) && Valid(c2)
    requires GetName(c1, true) == GetName(c2, true)
          || QueueKey(c1) == QueueKey(c2)
          || PublishKey(c1) == PublishKey(c2)
    ensures c1.namespace == c2.namespace && c1.name == c2.name
  {
    NameHasNoSeparator(c1);
    NameHasNoSeparator(c2);
    if QueueKey(c1) == QueueKey(c2) {
      assert GetName(c1, true) == QueueKey(c1)[..|QueueKey(c1)| - 2];
      assert GetName(c2, true) == QueueKey(c2)[..|QueueKey(c2)| - 2];
    }
    if PublishKey(c1) == PublishKey(c2) {
      assert PublishKey(c1) == (c1.namespace + ":rt") + ":" + c1.name;
      assert PublishKey(c2) == (c2.namespace + ":rt") + ":" + c2.name;
      SplitAtLastSeparator(c1.namespace + ":rt", c1.name, c2.namespace + ":rt", c2.name);
      assert c1.namespace == (c1.namespace + ":rt")[..|c1.namespace|];
      assert c2.namespace == (c2.namespace + ":rt")[..|c2.namespace|];
    } else {
      SplitAtLastSeparator(c1.namespace, c1.name, c2.namespace, c2.name);
    }
  }

  predicate NoSeparator(s: string) {
    forall i :: 0 <= i < |s| ==> s[i] != ':'
  }

  /**
   * Keys of different kinds (a queue's sorted set, a queue's hash, a
   * namespace's registry set): a hash key is never a registry key; a
   * sorted-set key is a registry key only for a queue named "QUEUES", and
   * another queue's hash key only when its namespace contains ':'.
   */
  lemma KeysOfDifferentKinds(c1: Config, c2: Config)
    requires Valid(c1) && Valid(c2)
    ensures QueueKey(c1) != RegistryKey(c2)
    ensures GetName(c1, true) == RegistryKey(c2) ==> c1.name == "QUEUES"
    ensures GetName(c1, true) == QueueKey(c2) ==> !NoSeparator(c1.namespace)
  {
    NameHasNoSeparator(c1);
    NameHasNoSeparator(c2);
    var n1, q2 := GetName(c1, true), GetName(c2, true);
    assert QueueKey(c1) == n1 + ":" + "Q";
    assert QueueKey(c2) == q2 + ":" + "Q";
    assert RegistryKey(c2) == c2.namespace + ":" + "QUEUES";
    assert n1 == c1.namespace + ":" + c1.name;
    assert q2 == c2.namespace + ":" + c2.name;
    if QueueKey(c1) == RegistryKey(c2) {
      SplitAtLastSeparator(n1, "Q", c2.namespace, "QUEUES");
      assert false;
    }
    if n1 == RegistryKey(c2) {
      SplitAtLastSeparator(c1.namespace, c1.name, c2.namespace, "QUEUES");
    }
    if n1 == QueueKey(c2) {
      SplitAtLastSeparator(c1.namespace, c1.name, q2, "Q");
      assert c1.namespace[|c2.namespace|] == ':';
    }
  }

  /** A queue may be named "QUEUES", and then keeps its sorted set at its namespace's registry key. */
  lemma RegistryCollision(c: Config)
    requires c.name == "QUEUES"
    ensures ValidName(c.name)
    ensures GetName(c, true) == RegistryKey(c)
  {
  }

  /**
   * The hash key of every valid queue is the sorted-set key of another valid
   * queue: the one named "Q" whose namespace is the first queue's namespace,
   * ':' and name.
   */
  lemma NestedNamespaceCollision(c: Config)
    requires Valid(c)
    ensures var twin := c.(namespace := c.namespace + ":" + c.name, name := "Q");
      Valid(twin) && GetName(twin, true) == QueueKey(c)
  {
    var ns := c.namespace + ":" + c.name;
    assert IsNameChar(c.name[|c.name| - 1]);
    assert ns[|ns| - 1] == c.name[|c.name| - 1];
    assert ns[0] == c.namespace[0];
    TrimmedIsFixed(ns);
    assert ValidName("Q");
  }
}
