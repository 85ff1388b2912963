/** Abstract AF_UNIX addresses: how a socket name travels to the peer, and how a receive is classified. */
module AfUnixAddress {
  import opened WireFormat

  const NUL: char := '\0'
  const PATH_SIZE: nat := 108      // sizeof(sockaddr_un::sun_path)
  const FAMILY_SIZE: nat := 2      // sizeof(sockaddr_un::sun_family)

  predicate HasNul(s: string) {
    exists i :: 0 <= i < |s| && s[i] == NUL
  }

  /** A C string: up to the first NUL. */
  function UpToNul(s: string): (r: string)
    ensures |r| <= |s| && r == s[..|r|] && !HasNul(r)
    ensures |r| < |s| ==> s[|r|] == NUL
  {
    if s == [] || s[0] == NUL then [] else [s[0]] + UpToNul(s[1..])
  }

  function Zeros(n: nat): (z: string)
    ensures |z| == n && forall i :: 0 <= i < n ==> z[i] == NUL
  {
    seq(n, _ => NUL)
  }

  // The C string in s is what comes before the first NUL.
  lemma {:induction false} TextEnds(s: string, i: nat)
    requires i <= |s| && (forall j :: 0 <= j < i ==> s[j] != NUL) && (i < |s| ==> s[i] == NUL)
    ensures UpToNul(s) == s[..i]
  {
    if i > 0 {
      TextEnds(s[1..], i - 1);
      assert [s[0]] + s[1..][..i - 1] == s[..i];
    }
  }

  // The first loop of strncpy: up to the NUL or the end.
  method CopyText(path: array<char>, at: nat, src: string) returns (i: nat)
    requires at + |src| <= path.Length
    modifies path
    ensures i <= |src| && UpToNul(src) == src[..i]
    ensures path[..] == old(path[..at]) + src[..i] + old(path[at + i..])
  {
    i := 0;
    while i < |src| && src[i] != NUL
      invariant i <= |src| && forall j :: 0 <= j < i ==> src[j] != NUL
      invariant forall j :: 0 <= j < path.Length && !(at <= j < at + i) ==> path[j] == old(path[j])
      invariant forall j :: 0 <= j < i ==> path[at + j] == src[j]
    {
      path[at + i] := src[i];
      i := i + 1;
    }
    TextEnds(src, i);
    assert path[at..at + i] == src[..i];
    assert path[..at] == old(path[..at]);
    assert path[at + i..] == old(path[at + i..]);
    assert path[..] == path[..at] + path[at..at + i] + path[at + i..];
  }

  // The second: NULs from one index to another.
  method PadNul(path: array<char>, from: nat, to: nat)
    requires from <= to <= path.Length
    modifies path
    ensures path[..] == old(path[..from]) + Zeros(to - from) + old(path[to..])
  {
    var i := from;
    while i < to
      invariant from <= i <= to
      invariant forall j :: 0 <= j < path.Length && !(from <= j < i) ==> path[j] == old(path[j])
      invariant forall j :: from <= j < i ==> path[j] == NUL
    {
      path[i] := NUL;
      i := i + 1;
    }
    assert path[from..to] == Zeros(to - from);
    assert path[..from] == old(path[..from]);
    assert path[to..] == old(path[to..]);
    assert path[..] == path[..from] + path[from..to] + path[to..];
  }

  /** strncpy of the whole name: past a NUL in the source it writes zeros. */
  method Strncpy(path: array<char>, at: nat, src: string)
    requires at + |src| <= path.Length
    modifies path
    ensures path[..] == old(path[..at]) + (UpToNul(src) + Zeros(|src| - |UpToNul(src)|)) + old(path[at + |src|..])
  {
    var i := CopyText(path, at, src);
    ghost var front := old(path[..at]) + UpToNul(src);
    assert path[..at + i] == front;
    assert path[at + |src|..] == old(path[at + |src|..]);
    PadNul(path, at + i, at + |src|);
  }

  /** The bytes of the path a name fills in a zeroed address: a leading NUL, the name, zeros. */
  function PathOf(name: string): (p: string)
    requires |name| < PATH_SIZE
    ensures |p| == PATH_SIZE
  {
    var text := UpToNul(name);
    [NUL] + text + Zeros(PATH_SIZE - 1 - |text|)
  }

  /** AfUnixSocket::createAddress on a zeroed path; the result is the length handed to the kernel. */
  method CreateAddress(path: array<char>, name: string) returns (length: nat)
    requires |name| < PATH_SIZE && path.Length == PATH_SIZE && path[..] == Zeros(PATH_SIZE)
    modifies path
    ensures length == FAMILY_SIZE + |name| + 1
    ensures path[..] == PathOf(name)
  {
    length := FAMILY_SIZE + |name| + 1;
    Strncpy(path, 1, name);
    ghost var text := UpToNul(name);
    assert Zeros(|name| - |text|) + Zeros(PATH_SIZE - 1 - |name|) == Zeros(PATH_SIZE - 1 - |text|);
  }

  /** The kernel keeps the first `length` bytes of the address; a receiver finds them in a zeroed path. */
  function Delivered(path: string, length: nat): (p: string)
    requires |path| == PATH_SIZE && FAMILY_SIZE <= length <= FAMILY_SIZE + PATH_SIZE
    ensures |p| == PATH_SIZE
  {
    path[..length - FAMILY_SIZE] + Zeros(PATH_SIZE - (length - FAMILY_SIZE))
  }

  /** The sender's name as receive reads it: the C string behind the first byte. */
  function SenderName(path: string): string
    requires |path| == PATH_SIZE
  {
    UpToNul(path[1..])
  }

  /** The address one socket binds, as another socket decodes it. */
  function SeenAs(name: string): string
    requires |name| < PATH_SIZE
  {
    SenderName(Delivered(PathOf(name), FAMILY_SIZE + |name| + 1))
  }

  lemma {:induction false} UpToNulPadded(text: string, n: nat)
    requires !HasNul(text)
    ensures UpToNul(text + Zeros(n)) == text
  {
    if text != [] {
      assert text[0] != NUL;
      assert (text + Zeros(n))[1..] == text[1..] + Zeros(n);
      assert !HasNul(text[1..]) by {
        assert forall i :: 0 <= i < |text[1..]| ==> text[1..][i] == text[i + 1];
      }
      UpToNulPadded(text[1..], n);
    }
  }

  lemma {:induction false} UpToNulWhole(s: string)
    ensures UpToNul(s) == s <==> !HasNul(s)
  {
    if !HasNul(s) {
      UpToNulPadded(s, 0);
      assert s + Zeros(0) == s;
    }
  }

  // Nothing of a path is lost on the way: what the kernel cuts off is zeros, and comes back as zeros.
  lemma PathArrives(name: string)
    requires |name| < PATH_SIZE
    ensures Delivered(PathOf(name), FAMILY_SIZE + |name| + 1) == PathOf(name)
    ensures PathOf(name)[1..] == UpToNul(name) + Zeros(PATH_SIZE - 1 - |UpToNul(name)|)
  {
  }

  lemma NameInPath(text: string)
    requires |text| < PATH_SIZE && !HasNul(text)
    ensures SenderName([NUL] + text + Zeros(PATH_SIZE - 1 - |text|)) == text
  {
    var zeros := Zeros(PATH_SIZE - 1 - |text|);
    assert ([NUL] + text + zeros)[1..] == text + zeros;
    UpToNulPadded(text, PATH_SIZE - 1 - |text|);
  }

  lemma SeenUpToNul(name: string)
    requires |name| < PATH_SIZE
    ensures SeenAs(name) == UpToNul(name)
  {
    PathArrives(name);
    NameInPath(UpToNul(name));
  }

  lemma PathTerminated(name: string)
    requires |name| <= 106
    ensures |PathOf(name)| == 108 && PathOf(name)[107] == NUL
  {
  }

  /**
   * The receiver decodes the name up to its first NUL, so the sender's identity survives the trip
   * exactly when the name has none. 106 is the longest name whose end a receiver can still find.
   */
  lemma SenderIdentity(name: string)
    requires |name| <= 106
    ensures SeenAs(name) == UpToNul(name)
    ensures SeenAs(name) == name <==> !HasNul(name)
    ensures |PathOf(name)| == 108 && PathOf(name)[107] == NUL
  {
    SeenUpToNul(name);
    PathTerminated(name);
    UpToNulWhole(name);
  }

  /**
   * A reply to the decoded sender is addressed to exactly the bytes the sender bound, and to nobody else's:
   * on names without NUL the address determines the name.
   */
  lemma ReplyReachesSender(name: string, other: string)
    requires |name| <= 106 && |other| <= 106 && !HasNul(name) && !HasNul(other)
    ensures PathOf(SeenAs(name)) == PathOf(name) && |SeenAs(name)| == |name|
    ensures PathOf(name) == PathOf(other) ==> name == other
  {
    SenderIdentity(name);
    SenderIdentity(other);
    PathArrives(name);
    PathArrives(other);
  }

  /** What the kernel answers during one receive call; `len` and `data` are recvfrom's result and bytes. */
  datatype Kernel = Kernel(poll: int, badFd: bool, available: nat, len: int, data: Bytes)

  /** AfUnixSocket::receive's result code. */
  function ReceiveCode(open: bool, k: Kernel): int {
    if !open then -1
    else if k.poll < 0 then (if k.badFd then 0 else -2)
    else if k.poll == 0 then 0
    else if k.len < 0 then (if k.badFd then 0 else -4)
    else if k.len != k.available then -5
    else if Decoded(k.data).None? then -6
    else k.len
  }

  /** Every other code tells its cause: only -1 is the socket's own, 0 is a timeout or a descriptor closed under the call. */
  lemma CodeTellsCause(open: bool, k: Kernel)
    requires |k.data| == k.available
    ensures var code := ReceiveCode(open, k);
            var polled := open && 0 < k.poll;
            && (code == -1 <==> !open)
            && (code == -2 <==> open && k.poll < 0 && !k.badFd)
            && (code == 0 <==> open && (k.poll == 0 || (k.poll < 0 && k.badFd) || (polled && k.len < 0 && k.badFd)))
            && (code == -4 <==> polled && k.len < 0 && !k.badFd)
            && (code == -5 <==> polled && 0 <= k.len != k.available)
            && (code == -6 <==> polled && k.len == k.available < 4)
  {
  }

  /** A positive code is given for exactly the whole datagrams that decode to a message, empty payloads included. */
  lemma PositiveMeansMessage(open: bool, k: Kernel)
    requires |k.data| == k.available
    ensures 0 < ReceiveCode(open, k) <==>
            open && 0 < k.poll && k.len == |k.data| && Decoded(k.data).Some?
    ensures 0 < ReceiveCode(open, k) ==> ID_SIZE <= ReceiveCode(open, k) == |k.data|
    ensures !open ==> ReceiveCode(open, k) < 0
  {
  }
}
