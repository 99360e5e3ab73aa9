/**
 * The reader of an SNMP message's first fields (conpot/protocols/snmp/message_peek.py): BER definite lengths
 * (section 8.1.3 of X.690) around version and community (section 4 of RFC 1157).
 */
module SnmpPeek {
  import opened Octets
  import opened Sequences
  import opened Wrappers

  const SEQUENCE: byte := 0x30
  const INTEGER: byte := 0x02
  const OCTET_STRING: byte := 0x04

  /** A length and the index after it. */
  datatype Length = Length(value: nat, next: nat)

  /** `_read_length`. */
  function ReadLength(data: seq<byte>, start: nat): (r: Option<Length>)
    ensures r.Some? ==> start < r.value.next <= |data|
  {
    if start >= |data| then None
    else
      var first: byte := data[start];
      var i := start + 1;
      if first < 0x80 then Some(Length(first, i))
      else
        var count: nat := first - 0x80;
        if count == 0 || count > 4 || i + count > |data| then None
        else Some(Length(FromBigEndian(data[i..i + count]), i + count))
  }

  /** Version and community octets, before decoding and truncation. */
  datatype Peeked = Peeked(version: Option<nat>, community: Option<seq<byte>>)

  const NOTHING := Peeked(None, None)

  predicate IsVersion(version: nat) {
    version == 0 || version == 1 || version == 3
  }

  /** The part of `peek` after a version at `start`. */
  function PeekCommunity(data: seq<byte>, start: nat): Option<seq<byte>> {
    if start >= |data| || data[start] != OCTET_STRING then None
    else
      var read := ReadLength(data, start + 1);
      if read.None? || read.value.next + read.value.value > |data| then None
      else Some(data[read.value.next..read.value.next + read.value.value])
  }

  /** The part of `peek` after the outer tag and length. */
  function PeekVersion(data: seq<byte>, start: nat): Peeked {
    if start >= |data| || data[start] != INTEGER then NOTHING
    else
      var read := ReadLength(data, start + 1);
      if read.None? || read.value.value < 1 || read.value.value > 4 || read.value.next + read.value.value > |data|
      then NOTHING
      else
        var end := read.value.next + read.value.value;
        var version := FromBigEndian(data[read.value.next..end]);
        if !IsVersion(version) then NOTHING
        else Peeked(Some(version), if version == 3 then None else PeekCommunity(data, end))
  }

  /** `peek`. */
  function Peek(data: seq<byte>): Peeked {
    if data == [] || data[0] != SEQUENCE then NOTHING
    else
      var read := ReadLength(data, 1);
      if read.None? then NOTHING else PeekVersion(data, read.value.next)
  }

  // ---------- Definite lengths ----------

  /** `form` is a short form of `n`, or a long form with up to four octets; leading zeros are allowed. */
  predicate Denotes(form: seq<byte>, n: nat) {
    || (|form| == 1 && form[0] < 0x80 && n == form[0])
    || (2 <= |form| <= 5 && form[0] == 0x80 + |form| - 1 && n == FromBigEndian(form[1..]))
  }

  /** Every definite form is read, and nothing else is. */
  lemma {:induction false} LengthIsRead(before: seq<byte>, form: seq<byte>, n: nat, rest: seq<byte>)
    requires Denotes(form, n)
    ensures ReadLength(before + (form + rest), |before|) == Some(Length(n, |before| + |form|))
  {
    var data := before + (form + rest);
    assert data[|before|] == form[0];
    if form[0] >= 0x80 {
      assert data[|before| + 1..|before| + |form|] == form[1..];
    }
  }

  lemma {:induction false} ReadLengthIsDenoted(data: seq<byte>, start: nat)
    requires ReadLength(data, start).Some?
    ensures var l := ReadLength(data, start).value; Denotes(data[start..l.next], l.value)
  {
    var l := ReadLength(data, start).value;
    var form := data[start..l.next];
    if data[start] >= 0x80 {
      assert form[1..] == data[start + 1..l.next];
    }
  }

  // ---------- Messages ----------

  /** A tag, a length in any definite form, and the contents. */
  datatype Field = Field(form: seq<byte>, contents: seq<byte>)

  predicate IsField(f: Field) {
    Denotes(f.form, |f.contents|)
  }

  function Encoded(tag: byte, f: Field): seq<byte> {
    [tag] + (f.form + f.contents)
  }

  /** The start of a v1 or v2c message; the outer length is not compared with what follows. */
  function Message(outer: seq<byte>, version: Field, community: Field, rest: seq<byte>): seq<byte> {
    ([SEQUENCE] + outer) + (Encoded(INTEGER, version) + (Encoded(OCTET_STRING, community) + rest))
  }

  predicate IsMessage(outer: seq<byte>, n: nat, version: Field, community: Field) {
    && Denotes(outer, n) && IsField(version) && IsField(community)
    && 1 <= |version.contents| <= 4 && FromBigEndian(version.contents) in {0, 1}
  }

  /** Contents stand behind tag and length. */
  lemma {:induction false} ContentsAt(head: seq<byte>, form: seq<byte>, contents: seq<byte>, rest: seq<byte>)
    ensures var data, next := head + (form + (contents + rest)), |head| + |form|;
      next + |contents| <= |data| && data[next..next + |contents|] == contents
  {
    Assoc(head, form, contents + rest);
    Assoc(head + form, contents, rest);
  }

  lemma {:induction false} TagAt(before: seq<byte>, tag: byte, f: Field, rest: seq<byte>)
    ensures before + (Encoded(tag, f) + rest) == (before + [tag]) + (f.form + (f.contents + rest))
  {
    Assoc(f.form, f.contents, rest);
    Assoc([tag], f.form + f.contents, rest);
    Assoc(before, [tag], f.form + (f.contents + rest));
  }

  /** Reading a field that starts after `before`; its contents are at `next`. */
  lemma {:induction false} FieldIsRead(
      data: seq<byte>, before: seq<byte>, tag: byte, f: Field, next: nat, rest: seq<byte>)
    requires IsField(f) && data == before + (Encoded(tag, f) + rest) && next == |before| + 1 + |f.form|
    ensures |before| < |data| && data[|before|] == tag
    ensures ReadLength(data, |before| + 1) == Some(Length(|f.contents|, next))
    ensures next + |f.contents| <= |data| && data[next..next + |f.contents|] == f.contents
    ensures next + |f.contents| == |before + Encoded(tag, f)|
  {
    TagAt(before, tag, f, rest);
    LengthIsRead(before + [tag], f.form, |f.contents|, f.contents + rest);
    ContentsAt(before + [tag], f.form, f.contents, rest);
  }

  lemma {:induction false} CommunityIsRead(data: seq<byte>, before: seq<byte>, community: Field, rest: seq<byte>)
    requires IsField(community) && data == before + (Encoded(OCTET_STRING, community) + rest)
    ensures PeekCommunity(data, |before|) == Some(community.contents)
  {
    FieldIsRead(data, before, OCTET_STRING, community, |before| + 1 + |community.form|, rest);
  }

  lemma {:induction false} VersionThenCommunity(data: seq<byte>, start: nat, version: Field, next: nat, end: nat)
    requires start < |data| && data[start] == INTEGER && end == next + |version.contents| <= |data|
    requires ReadLength(data, start + 1) == Some(Length(|version.contents|, next))
    requires data[next..end] == version.contents
    requires 1 <= |version.contents| <= 4 && FromBigEndian(version.contents) in {0, 1}
    ensures PeekVersion(data, start) == Peeked(Some(FromBigEndian(version.contents)), PeekCommunity(data, end))
  {
  }

  lemma {:induction false} VersionIsRead(
      data: seq<byte>, before: seq<byte>, version: Field, community: Field, rest: seq<byte>)
    requires IsField(version) && IsField(community)
    requires 1 <= |version.contents| <= 4 && FromBigEndian(version.contents) in {0, 1}
    requires data == before + (Encoded(INTEGER, version) + (Encoded(OCTET_STRING, community) + rest))
    ensures PeekVersion(data, |before|)
         == Peeked(Some(FromBigEndian(version.contents)), Some(community.contents))
  {
    var tail := Encoded(OCTET_STRING, community) + rest;
    var next := |before| + 1 + |version.form|;
    var head := before + Encoded(INTEGER, version);
    Assoc(before, Encoded(INTEGER, version), tail);
    CommunityIsRead(data, head, community, rest);
    FieldIsRead(data, before, INTEGER, version, next, tail);
    VersionThenCommunity(data, |before|, version, next, |head|);
  }

  /** Version and community come back from every message start, whatever definite forms its lengths take. */
  lemma {:induction false} PeekReadsMessage(outer: seq<byte>, n: nat, version: Field, community: Field, rest: seq<byte>)
    requires IsMessage(outer, n, version, community)
    ensures Peek(Message(outer, version, community, rest))
         == Peeked(Some(FromBigEndian(version.contents)), Some(community.contents))
  {
    var tail := Encoded(INTEGER, version) + (Encoded(OCTET_STRING, community) + rest);
    LengthIsRead([SEQUENCE], outer, n, tail);
    Assoc([SEQUENCE], outer, tail);
    VersionIsRead(Message(outer, version, community, rest), [SEQUENCE] + outer, version, community, rest);
  }

  /** The field a successful read found. */
  lemma {:induction false} ReadIsField(data: seq<byte>, start: nat) returns (f: Field)
    requires start < |data| && ReadLength(data, start + 1).Some?
    requires var l := ReadLength(data, start + 1).value; l.next + l.value <= |data|
    ensures IsField(f)
    ensures var l := ReadLength(data, start + 1).value;
            && f.contents == data[l.next..l.next + l.value]
            && data[start..l.next + l.value] == Encoded(data[start], f)
  {
    var l := ReadLength(data, start + 1).value;
    f := Field(data[start + 1..l.next], data[l.next..l.next + l.value]);
    ReadLengthIsDenoted(data, start + 1);
  }

  lemma {:induction false} PeekedCommunity(data: seq<byte>, start: nat) returns (community: Field, rest: seq<byte>)
    requires PeekCommunity(data, start).Some?
    ensures IsField(community) && PeekCommunity(data, start) == Some(community.contents)
    ensures start <= |data| && data[start..] == Encoded(OCTET_STRING, community) + rest
  {
    community := ReadIsField(data, start);
    var l := ReadLength(data, start + 1).value;
    rest := data[l.next + l.value..];
  }

  lemma {:induction false} PeekedVersion(
      data: seq<byte>, start: nat) returns (version: Field, community: Field, rest: seq<byte>)
    requires PeekVersion(data, start).community.Some?
    ensures IsField(version) && IsField(community)
    ensures 1 <= |version.contents| <= 4 && FromBigEndian(version.contents) in {0, 1}
    ensures PeekVersion(data, start) == Peeked(Some(FromBigEndian(version.contents)), Some(community.contents))
    ensures start <= |data|
    ensures data[start..] == Encoded(INTEGER, version) + (Encoded(OCTET_STRING, community) + rest)
  {
    version := ReadIsField(data, start);
    var l := ReadLength(data, start + 1).value;
    community, rest := PeekedCommunity(data, l.next + l.value);
    assert data[start..] == data[start..l.next + l.value] + data[l.next + l.value..];
  }

  /** Conversely, a community is only reported of such a message start, and it is the one that stands there. */
  lemma {:induction false} PeekedIsMessage(
      data: seq<byte>) returns (outer: seq<byte>, n: nat, version: Field, community: Field, rest: seq<byte>)
    requires Peek(data).community.Some?
    ensures IsMessage(outer, n, version, community) && data == Message(outer, version, community, rest)
    ensures Peek(data) == Peeked(Some(FromBigEndian(version.contents)), Some(community.contents))
  {
    var l := ReadLength(data, 1).value;
    ReadLengthIsDenoted(data, 1);
    outer, n := data[1..l.next], l.value;
    version, community, rest := PeekedVersion(data, l.next);
    SplitAt(data, l.next);
    assert data[..l.next] == [SEQUENCE] + outer;
  }

  // ---------- Messages of any version ----------

  /** A SEQUENCE with an INTEGER at its start, and anything behind it. */
  function Versioned(outer: seq<byte>, version: Field, rest: seq<byte>): seq<byte> {
    ([0x30] + outer) + (([0x02] + (version.form + version.contents)) + rest)
  }

  lemma {:induction false} LengthMoves(data: seq<byte>, start: nat, i: nat)
    requires start <= |data|
    ensures var a, b := ReadLength(data, start + i), ReadLength(data[start..], i);
      && (a.Some? <==> b.Some?)
      && (a.Some? ==> a.value.value == b.value.value && a.value.next == start + b.value.next)
  {
    var rest := data[start..];
    if i < |rest| && rest[i] >= 0x80 && i + 1 + (rest[i] - 0x80) as int <= |rest| {
      var count: nat := rest[i] - 0x80;
      assert rest[i + 1..i + 1 + count] == data[start + i + 1..start + i + 1 + count];
    }
  }

  lemma {:induction false} CommunityMoves(data: seq<byte>, start: nat)
    requires start <= |data|
    ensures PeekCommunity(data, start) == PeekCommunity(data[start..], 0)
  {
    var rest := data[start..];
    if start < |data| && data[start] == OCTET_STRING {
      LengthMoves(data, start, 1);
      var moved := ReadLength(rest, 1);
      if moved.Some? && moved.value.next + moved.value.value <= |rest| {
        var l := moved.value;
        assert rest[l.next..l.next + l.value] == data[start + l.next..start + l.next + l.value];
      }
    }
  }

  /** What a message start says, by its version; of versions 1 and 2c what is behind it is read as a community. */
  function SaidBy(version: seq<byte>, rest: seq<byte>): Peeked {
    if |version| == 0 || |version| > 4 then Peeked(None, None)
    else
      var n := FromBigEndian(version);
      if n == 0 || n == 1 then Peeked(Some(n), PeekCommunity(rest, 0))
      else if n == 3 then Peeked(Some(3), None)
      else Peeked(None, None)
  }

  /** A version that has been read decides, whatever was read before and behind it. */
  lemma {:induction false} ReadVersionDecides(data: seq<byte>, start: nat, version: seq<byte>, next: nat)
    requires start < |data| && data[start] == INTEGER && next + |version| <= |data|
    requires ReadLength(data, start + 1) == Some(Length(|version|, next)) && data[next..next + |version|] == version
    ensures PeekVersion(data, start) == SaidBy(version, data[next + |version|..])
  {
    CommunityMoves(data, next + |version|);
  }

  lemma {:induction false} VersionDecides(data: seq<byte>, before: seq<byte>, version: Field, rest: seq<byte>)
    requires IsField(version) && data == before + (Encoded(INTEGER, version) + rest)
    ensures PeekVersion(data, |before|) == SaidBy(version.contents, rest)
  {
    var next := |before| + 1 + |version.form|;
    FieldIsRead(data, before, INTEGER, version, next, rest);
    Assoc(before, Encoded(INTEGER, version), rest);
    assert data[next + |version.contents|..] == rest;
    ReadVersionDecides(data, |before|, version.contents, next);
  }

  /** Every version in every form: 0 and 1 with what follows, 3 alone, others and overlong ones not at all. */
  lemma {:induction false} PeekReadsVersion(outer: seq<byte>, n: nat, version: Field, rest: seq<byte>)
    requires Denotes(outer, n) && IsField(version)
    ensures Peek(Versioned(outer, version, rest)) == SaidBy(version.contents, rest)
  {
    var data, tail := Versioned(outer, version, rest), Encoded(INTEGER, version) + rest;
    LengthIsRead([SEQUENCE], outer, n, tail);
    Assoc([SEQUENCE], outer, tail);
    VersionDecides(data, [SEQUENCE] + outer, version, rest);
  }

  /** An octet string that is all there, and anything behind it. */
  ghost predicate IsOctetString(rest: seq<byte>, form: seq<byte>, contents: seq<byte>, more: seq<byte>) {
    Denotes(form, |contents|) && rest == [0x04] + (form + (contents + more))
  }

  lemma {:induction false} OctetStringIsRead(rest: seq<byte>, form: seq<byte>, contents: seq<byte>, more: seq<byte>)
    requires IsOctetString(rest, form, contents, more)
    ensures PeekCommunity(rest, 0) == Some(contents)
  {
    var none: seq<byte> := [];
    assert rest == none + (Encoded(OCTET_STRING, Field(form, contents)) + more);
    CommunityIsRead(rest, none, Field(form, contents), more);
  }

  /** The community is an octet string that is all there; anything else behind the version gives none. */
  lemma {:induction false} CommunityIsWhole(rest: seq<byte>)
    ensures PeekCommunity(rest, 0).Some? <==> exists form, contents, more :: IsOctetString(rest, form, contents, more)
    ensures forall form, contents, more | IsOctetString(rest, form, contents, more) ::
      PeekCommunity(rest, 0) == Some(contents)
  {
    if PeekCommunity(rest, 0).Some? {
      var community, more := PeekedCommunity(rest, 0);
      assert rest[0..] == rest;
      assert Encoded(OCTET_STRING, community) + more == [0x04] + (community.form + (community.contents + more));
      assert IsOctetString(rest, community.form, community.contents, more);
    }
    forall form, contents, more | IsOctetString(rest, form, contents, more)
      ensures PeekCommunity(rest, 0) == Some(contents)
    {
      OctetStringIsRead(rest, form, contents, more);
    }
  }

  lemma {:induction false} VersionedAt(data: seq<byte>, start: nat) returns (version: Field, rest: seq<byte>)
    requires PeekVersion(data, start).version.Some?
    ensures IsField(version) && start <= |data| && data[start..] == Encoded(INTEGER, version) + rest
  {
    version := ReadIsField(data, start);
    var l := ReadLength(data, start + 1).value;
    rest := data[l.next + l.value..];
    assert data[start..] == data[start..l.next + l.value] + rest;
  }

  /** Conversely, a version is only reported of such a start. */
  lemma {:induction false} PeekedIsVersioned(data: seq<byte>)
    returns (outer: seq<byte>, n: nat, version: Field, rest: seq<byte>)
    requires Peek(data).version.Some?
    ensures Denotes(outer, n) && IsField(version) && data == Versioned(outer, version, rest)
    ensures Peek(data) == SaidBy(version.contents, rest)
  {
    var l := ReadLength(data, 1).value;
    ReadLengthIsDenoted(data, 1);
    outer, n := data[1..l.next], l.value;
    version, rest := VersionedAt(data, l.next);
    SplitAt(data, l.next);
    assert data[..l.next] == [0x30] + outer;
    PeekReadsVersion(outer, n, version, rest);
  }
}
