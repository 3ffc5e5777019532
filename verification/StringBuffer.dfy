/** string/string.c and string/string_buffer.h: the growable byte buffer. */
module StringBuffer {
  import opened Bytes
  import opened FileDescriptor

  datatype Status = Ok | EndOfFile | ErrorErrno | ErrorInvalidAccess | ErrorInvalidReadSize

  const READ_SIZE_MAX := SSIZE_MAX
  const CX_ERR := -1

  function Max(a: nat, b: nat): nat {
    if a < b then b else a
  }

  /** How an outcome of read(2) other than data is recorded in the buffer. */
  function StatusOf(o: Outcome): Status
    requires !o.Data?
  {
    if o.Eof? then EndOfFile else ErrorErrno
  }

  /** What "%s" prints of the characters at a pointer. */
  function CString<T(==)>(s: seq<T>, nul: T): seq<T> {
    if s == [] || s[0] == nul then [] else [s[0]] + CString(s[1..], nul)
  }

  lemma Regroup<T>(a: seq<T>, b: seq<T>, c: seq<T>)
    ensures a + b + c == a + (b + c)
  {
  }

  /** The capacity is length; value has one more byte for the terminator. */
  class Buffer {
    var length: nat
    var used: nat
    var value: array<byte>
    var status: Status
    var errno: int

    ghost predicate Sized()
      reads this, value
    {
      value.Length == length + 1 && used <= length
    }

    ghost predicate Valid()
      reads this, value
    {
      Sized() && value[used] == 0
    }

    ghost function Contents(): (s: seq<byte>)
      reads this, value
      requires Valid()
      ensures |s| == used
    {
      value[..used]
    }

    constructor (length: nat)
      ensures Valid() && fresh(value) && Contents() == []
      ensures this.length == length && status == Ok
    {
      this.length := length;
      used := 0;
      value := new byte[length + 1](_ => 0);
      status := Ok;
      errno := 0;
    }

    method MakeRoom(offset: nat, size: nat) returns (ok: bool)
      requires Sized()
      modifies this`length, this`value, this`status
      ensures Sized() && (value == old(value) || (fresh(value) && value[used] == 0))
      ensures offset + size <= old(length) ==> value == old(value)
      ensures ok == (offset <= old(length))
      ensures length == if ok then Max(old(length), offset + size) else old(length)
      ensures used == old(used) && value[..used] == old(value[..used])
      ensures status == if ok then old(status) else ErrorInvalidAccess
    {
      var newLength := offset + size;
      if newLength > length {
        if offset > length {
          status := ErrorInvalidAccess;
          return false;
        }
        var oldValue := value;
        var newValue := new byte[newLength + 1](_ => 0);
        if length > 0 {
          forall i | 0 <= i < used {
            newValue[i] := oldValue[i];
          }
        }
        assert newValue[..used] == oldValue[..used];
        value := newValue;
        length := newLength;
        value[used] := 0;
      }
      return true;
    }

    /** memcpy of source to offset, then length and terminator. */
    method Store(offset: nat, source: seq<byte>)
      requires Sized() && offset + |source| <= length
      modifies this`used, value
      ensures Valid() && used == offset + |source|
      ensures Contents() == old(value[..offset]) + source
    {
      forall i | 0 <= i < |source| {
        value[offset + i] := source[i];
      }
      used := offset + |source|;
      value[used] := 0;
    }

    /** Overwrites from offset on; the bytes before offset stay. */
    method Append(offset: nat, source: seq<byte>)
      requires Valid()
      modifies this, value
      ensures Valid() && (value == old(value) || fresh(value)) && errno == old(errno)
      ensures source == [] || offset > old(length) ==> Contents() == old(Contents()) && length == old(length)
      ensures status == if source != [] && offset > old(length) then ErrorInvalidAccess else old(status)
      ensures source != [] && offset <= old(length) ==>
                && length == Max(old(length), offset + |source|)
                && used == offset + |source|
                && Contents()[offset..] == source
                && (offset <= old(used) ==> Contents() == old(Contents())[..offset] + source)
                && (old(used) <= offset ==> Contents()[..old(used)] == old(Contents()))
    {
      if source == [] {
        return;
      }
      var ok := MakeRoom(offset, |source|);
      if ok {
        ghost var before := Contents();
        assert offset <= used ==> value[..offset] == before[..offset];
        assert used <= offset ==> value[..offset][..used] == before;
        Store(offset, source);
      }
    }

    /** StringBuffer_vsnprintf with the formatted text: print what fits, grow and print again if it did not. */
    method Print(offset: nat, text: seq<byte>) returns (printed: int)
      requires Valid()
      modifies this, value
      ensures Valid() && (value == old(value) || fresh(value)) && errno == old(errno)
      ensures offset > old(length) ==>
                printed == CX_ERR && Contents() == old(Contents()) && status == ErrorInvalidAccess
      ensures offset <= old(length) ==>
                && printed == |text| && status == old(status)
                && length == Max(old(length), offset + |text|)
                && used == offset + |text| && Contents()[offset..] == text
                && (offset <= old(used) ==> Contents() == old(Contents())[..offset] + text)
    {
      if offset > length {
        status := ErrorInvalidAccess;
        return CX_ERR;
      }
      var available := length - offset;
      PrintWhatFits(offset, text);
      if |text| > available {
        var room := MakeRoom(offset, |text|);
        assert offset <= used ==> value[..offset] == value[..used][..offset];
        Store(offset, text);
      } else {
        used := offset + |text|;
      }
      return |text|;
    }

    /** vsnprintf: the text and a terminator, cut to the space available. */
    method PrintWhatFits(offset: nat, text: seq<byte>)
      requires Sized() && offset <= length
      modifies value
      ensures value[..offset] == old(value[..offset])
      ensures offset + |text| <= length ==>
                value[offset..offset + |text|] == text && value[offset + |text|] == 0
    {
      var available := length - offset;
      var fits := if |text| <= available then |text| else available;
      forall i | 0 <= i < fits {
        value[offset + i] := text[i];
      }
      value[offset + fits] := 0;
    }

    /** StringBuffer_ncat: append at the end of what is used. */
    method Cat(source: seq<byte>)
      requires Valid()
      modifies this, value
      ensures Valid() && (value == old(value) || fresh(value))
      ensures Contents() == old(Contents()) + source
      ensures length == Max(old(length), old(used) + |source|)
      ensures status == old(status) && errno == old(errno)
    {
      Append(used, source);
    }

    method Shift(n: nat)
      requires Valid()
      modifies this`used, this`status, value
      ensures Valid()
      ensures n <= old(used) ==> Contents() == old(Contents())[n..] && status == old(status)
      ensures n > old(used) ==> Contents() == old(Contents()) && status == ErrorInvalidAccess
      ensures value[used + 1..] == old(value[..])[used + 1..]
    {
      if n == 0 {
        return;
      }
      if n > used {
        status := ErrorInvalidAccess;
        return;
      }
      var remaining := used - n;
      used := remaining;
      if remaining > 0 {
        forall i | 0 <= i < remaining {
          value[i] := value[i + n];
        }
      }
      // The memset that follows passes its size as the fill byte and 0 as the size: it writes nothing.
      value[used] := 0;
    }

    method Clear()
      requires Valid()
      modifies this, value
      ensures Valid() && value == old(value) && length == old(length)
      ensures Contents() == [] && status == old(status) && errno == old(errno)
    {
      Shift(used);
    }

    /** StringBuffer_fdncat: one read of at most size bytes, appended. */
    method ReadAppend(fd: Descriptor, size: int) returns (nread: int)
      requires Valid()
      modifies this, value, fd
      ensures Valid() && (value == old(value) || fresh(value))
      ensures old(used) + size <= old(length) ==> value == old(value)
      ensures size <= 0 ==> Contents() == old(Contents()) && length == old(length) && fd.script == old(fd.script)
      ensures size < 0 ==> nread == CX_ERR && status == ErrorInvalidReadSize && errno == old(errno)
      ensures size == 0 ==> nread == 0 && status == old(status) && errno == old(errno)
      ensures size > 0 ==>
                var o := Next(old(fd.script), size);
                && fd.script == After(old(fd.script), size)
                && length == Max(old(length), old(used) + size)
                && (o.Data? ==> nread == |o.bytes| && Contents() == old(Contents()) + o.bytes
                                && status == old(status) && errno == old(errno))
                && (!o.Data? ==> nread == (if o.Eof? then 0 else CX_ERR) && Contents() == old(Contents())
                                 && status == StatusOf(o) && errno == if o.Fail? then o.errno else old(errno))
    {
      if size < 0 {
        status := ErrorInvalidReadSize;
        return CX_ERR;
      }
      if size == 0 {
        return 0;
      }
      var room := MakeRoom(used, size);
      var outcome := fd.Read(size);
      match outcome {
        case Fail(e) =>
          status, errno := ErrorErrno, e;
          return CX_ERR;
        case Eof =>
          status := EndOfFile;
          return 0;
        case Data(bytes) =>
          ReadTakesPrefix(old(fd.script), size);
          Store(used, bytes);
          return |bytes|;
      }
    }

    /** The outcome that ended a series of reads is the one recorded. */
    ghost predicate StoppedBy(o: Outcome, oldErrno: int)
      reads this
    {
      !o.Data? && status == StatusOf(o) && errno == if o.Fail? then o.errno else oldErrno
    }

    /** One read, told in terms of what the script has ready. */
    method ReadReady(fd: Descriptor, size: nat) returns (nread: int, ghost taken: seq<byte>)
      requires Valid()
      modifies this, value, fd
      ensures Valid() && (value == old(value) || fresh(value))
      ensures old(used) + size <= old(length) ==> value == old(value)
      ensures length == if size == 0 then old(length) else Max(old(length), old(used) + size)
      ensures Contents() == old(Contents()) + taken && |taken| <= size
      ensures size == 0 ==> nread == 0 && fd.script == old(fd.script)
      ensures nread > 0 || size == 0 ==>
                && nread == |taken| && taken + Ready(fd.script) == Ready(old(fd.script))
                && Stop(fd.script) == Stop(old(fd.script))
                && status == old(status) && errno == old(errno)
      ensures nread <= 0 && size > 0 ==>
                && Ready(old(fd.script)) == [] && taken == []
                && nread == (if Stop(old(fd.script)).Eof? then 0 else CX_ERR)
                && StoppedBy(Stop(old(fd.script)), old(errno))
      ensures Flowed(old(fd.script), taken, fd.script)
      ensures size > 0 ==> Moved(old(fd.script), taken, fd.script)
    {
      hide Flowed, Moved, Ready, Stop;
      taken := [];
      StaysPut(fd.script);
      if size > 0 {
        ReadTakesPrefix(fd.script, size);
        ReadFlows(fd.script, size);
        var o := Next(fd.script, size);
        taken := if o.Data? then o.bytes else [];
      }
      nread := ReadAppend(fd, size);
    }

    /** StringBuffer_fdload: read until the input ends, blocks or fails. */
    method Load(fd: Descriptor, readSize: nat)
      requires Valid()
      modifies this, value, fd
      ensures Valid() && (value == old(value) || fresh(value))
      ensures readSize % READ_SIZE_MAX != 0 ==>
                && Contents() == old(Contents()) + Ready(old(fd.script))
                && StoppedBy(Stop(old(fd.script)), old(errno))
                && old(length) <= length <= Max(old(length), used + readSize % READ_SIZE_MAX)
      ensures readSize % READ_SIZE_MAX == 0 ==>
                && Contents() == old(Contents()) && length == old(length)
                && fd.script == old(fd.script) && status == old(status) && errno == old(errno)
    {
      hide Flowed, Moved, Ready, Stop;
      if readSize == 0 {
        return;
      }
      var original := readSize % READ_SIZE_MAX;
      var size: nat := original;
      ghost var start, all, delivered := Contents(), Ready(fd.script), [];
      assert start + [] == start;
      while true
        invariant Valid() && (value == old(value) || fresh(value))
        invariant size <= original && (size == 0 <==> original == 0)
        invariant old(length) <= length <= Max(old(length), used + original)
        invariant Contents() == start + delivered && delivered + Ready(fd.script) == all
        invariant Stop(fd.script) == Stop(old(fd.script))
        invariant status == old(status) && errno == old(errno)
        invariant original == 0 ==> used == old(used) && length == old(length) && fd.script == old(fd.script)
        decreases |Ready(fd.script)|
      {
        var nread, taken := ReadReady(fd, size);
        Regroup(delivered, taken, Ready(fd.script));
        Regroup(start, delivered, taken);
        delivered := delivered + taken;
        if nread <= 0 {
          break;
        }
        if nread < size {
          var unused := length - used;
          if size > unused {
            size := unused;
          }
        }
      }
    }

    /** StringBuffer_ffill: read until the buffer is full or the input ends, blocks or fails. */
    method Fill(fd: Descriptor) returns (ghost delivered: seq<byte>)
      requires Valid()
      modifies this, value, fd
      ensures Valid() && value == old(value) && length == old(length)
      ensures Contents() == old(Contents()) + delivered && delivered <= Ready(old(fd.script))
      ensures (status == old(status) && errno == old(errno)) || StoppedBy(Stop(old(fd.script)), old(errno))
      ensures used == length ==> delivered + Ready(fd.script) == Ready(old(fd.script))
      ensures length < READ_SIZE_MAX && used < length ==>
                delivered == Ready(old(fd.script)) && StoppedBy(Stop(old(fd.script)), old(errno))
      ensures Flowed(old(fd.script), delivered, fd.script)
      ensures old(used) < length < READ_SIZE_MAX ==> Moved(old(fd.script), delivered, fd.script)
    {
      hide Flowed, Moved, Ready, Stop;
      delivered := [];
      StaysPut(fd.script);
      if length == 0 || length == used {
        return;
      }
      ghost var start, all := Contents(), Ready(fd.script);
      assert start + [] == start;
      while used < length
        invariant Valid() && value == old(value) && length == old(length)
        invariant Contents() == start + delivered && delivered + Ready(fd.script) == all
        invariant Stop(fd.script) == Stop(old(fd.script))
        invariant status == old(status) && errno == old(errno)
        invariant Flowed(old(fd.script), delivered, fd.script)
        invariant delivered != [] && length < READ_SIZE_MAX ==> Moved(old(fd.script), delivered, fd.script)
        invariant delivered == [] ==> fd.script == old(fd.script)
      {
        ghost var before := fd.script;
        var nread, taken := ReadReady(fd, (length - used) % READ_SIZE_MAX);
        FlowsTransitively(old(fd.script), delivered, before, taken, fd.script);
        Regroup(delivered, taken, Ready(fd.script));
        Regroup(start, delivered, taken);
        assert [] + taken == taken;
        delivered := delivered + taken;
        if nread <= 0 {
          break;
        }
      }
    }
  }
}
