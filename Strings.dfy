/** StringBuf, a read-only view of characters, and String, a view onto a
    reference-counted buffer that is shared by copies and copied on the
    first change. A view's characters are modelled by their contents; the
    pointers Begin and End are not. */
module Strings {

  /** StringBuf::npos and String::npos. */
  const Npos: nat := 0xff

  function Min(a: nat, b: nat): nat
  {
    if a <= b then a else b
  }

  /** No character of s is the terminating NUL of a C string. */
  predicate NulFree(s: seq<char>)
  {
    forall i :: 0 <= i < |s| ==> s[i] != '\0'
  }

  /** `strncmp(a, b, n) == 0`: the first n characters agree, except that
      the comparison stops at a NUL both strings share. */
  function StrNCmpEqual(a: seq<char>, b: seq<char>, n: nat): bool
    requires n <= |a| && n <= |b|
  {
    n == 0 || (a[0] == b[0] && (a[0] == '\0' || StrNCmpEqual(a[1..], b[1..], n - 1)))
  }

  /** Over NUL-free text strncmp compares exactly the first n characters. */
  lemma {:induction false} StrNCmpEqualNulFree(a: seq<char>, b: seq<char>, n: nat)
    requires n <= |a| && n <= |b| && NulFree(a[..n])
    ensures StrNCmpEqual(a, b, n) <==> a[..n] == b[..n]
  {
    if n > 0 {
      assert a[0] == a[..n][0];
      assert a[1..][..n - 1] == a[..n][1..];
      StrNCmpEqualNulFree(a[1..], b[1..], n - 1);
      if a[..n] == b[..n] {
        assert a[0] == b[0];
        assert a[1..][..n - 1] == b[1..][..n - 1] by {
          assert a[1..][..n - 1] == a[..n][1..];
          assert b[1..][..n - 1] == b[..n][1..];
        }
      }
      if a[0] == b[0] && a[1..][..n - 1] == b[1..][..n - 1] {
        assert a[..n] == [a[0]] + a[1..][..n - 1];
        assert b[..n] == [b[0]] + b[1..][..n - 1];
      }
    }
  }

  /** StringBuf::operator==: same size, then strncmp over that size. */
  function Equal(a: seq<char>, b: seq<char>): (r: bool)
    ensures r ==> |a| == |b|
  {
    |a| == |b| && StrNCmpEqual(a, b, |a|)
  }

  /** On NUL-free text `==` is equality of contents, in both directions. */
  lemma EqualIffSame(a: seq<char>, b: seq<char>)
    requires NulFree(a)
    ensures Equal(a, b) <==> a == b
  {
    if |a| == |b| {
      assert a[..|a|] == a && b[..|b|] == b;
      StrNCmpEqualNulFree(a, b, |a|);
    }
  }

  /** Characters after a shared NUL are not compared. */
  lemma EqualStopsAtNul()
    ensures Equal(['a', '\0', 'x'], ['a', '\0', 'y'])
  {
    assert StrNCmpEqual(['a', '\0', 'x'][1..], ['a', '\0', 'y'][1..], 2);
  }

  /** StringBuf::substr(pos, spos): `spos` is clamped to the characters
      left after pos; the default `spos` is npos (255). */
  function Substr(s: seq<char>, pos: nat, n: nat): (r: seq<char>)
    requires pos <= |s|
    ensures |r| == Min(n, |s| - pos)
    ensures r == s[pos..pos + |r|]
  {
    s[pos..pos + Min(n, |s| - pos)]
  }

  /** A default substr never yields more than 255 characters, and yields the
      whole tail exactly when the tail is that short. */
  lemma SubstrDefault(s: seq<char>, pos: nat)
    requires pos <= |s|
    ensures |Substr(s, pos, Npos)| <= 255
    ensures Substr(s, pos, Npos) == s[pos..] <==> |s| - pos <= 255
  {
  }

  /** StringBuf::starts_with(p): p fits and strncmp over |p| agrees. */
  function StartsWith(s: seq<char>, p: seq<char>): (r: bool)
    ensures r ==> |p| <= |s|
  {
    |p| <= |s| && StrNCmpEqual(s, p, |p|)
  }

  /** For a NUL-free prefix, starts_with means the first |p| characters are p. */
  lemma StartsWithIffPrefix(s: seq<char>, p: seq<char>)
    requires NulFree(p)
    ensures StartsWith(s, p) <==> |p| <= |s| && s[..|p|] == p
  {
    if |p| <= |s| {
      assert p[..|p|] == p;
      StrNCmpEqualNulFree(p, s, |p|);
      StrNCmpSymmetric(s, p, |p|);
    }
  }

  lemma {:induction false} StrNCmpSymmetric(a: seq<char>, b: seq<char>, n: nat)
    requires n <= |a| && n <= |b|
    ensures StrNCmpEqual(a, b, n) == StrNCmpEqual(b, a, n)
  {
    if n > 0 && a[0] == b[0] && a[0] != '\0' {
      StrNCmpSymmetric(a[1..], b[1..], n - 1);
    }
  }

  /** The loop of StringBuf::find from position p on. */
  function FindFrom(s: seq<char>, c: char, p: nat): (r: nat)
    requires p <= |s|
    ensures c in s[p..] ==> p <= r < |s| && s[r] == c && c !in s[p..r]
    ensures c !in s[p..] ==> r == Npos
    decreases |s| - p
  {
    if p == |s| then Npos
    else if s[p] == c then p
    else
      assert s[p..] == [s[p]] + s[p + 1..];
      var r := FindFrom(s, c, p + 1);
      assert c in s[p + 1..] ==> s[p..r] == [s[p]] + s[p + 1..r];
      r
  }

  /** StringBuf::find(c): the first index holding c, or npos (255). */
  function Find(s: seq<char>, c: char): (r: nat)
    ensures c in s ==> r < |s| && s[r] == c && c !in s[..r]
    ensures c !in s ==> r == Npos
  {
    assert s[0..] == s;
    FindFrom(s, c, 0)
  }

  /** "Not found" is the index 255: a view whose only c is at index 255
      cannot be told apart from one without c. */
  lemma FindAmbiguousAt255(s: seq<char>, c: char)
    requires |s| > 255 && s[255] == c && c !in s[..255]
    ensures Find(s, c) == Npos
  {
    assert s[..255] + [s[255]] == s[..256];
  }

  predicate IsDigit(c: char)
  {
    '0' <= c <= '9'
  }

  /** The loop of StringBuf::toint with the accumulator v: a digit extends
      the value, anything else makes the whole result 0. */
  function ToIntFrom(s: seq<char>, v: int): (r: int)
    decreases |s|
  {
    if s == [] then v
    else if IsDigit(s[0]) then ToIntFrom(s[1..], v * 10 + (s[0] as int - '0' as int))
    else 0
  }

  /** StringBuf::toint(). */
  function ToInt(s: seq<char>): int
  {
    ToIntFrom(s, 0)
  }

  predicate AllDigits(s: seq<char>)
  {
    forall i :: 0 <= i < |s| ==> IsDigit(s[i])
  }

  /** The decimal value of a digit string, read from its last digit. */
  function DecimalValue(s: seq<char>): (r: nat)
    requires AllDigits(s)
  {
    if s == [] then 0
    else DecimalValue(s[..|s| - 1]) * 10 + (s[|s| - 1] as int - '0' as int)
  }

  /** Appending a digit to the view scales the running value by ten. */
  lemma {:induction false} ToIntFromSnoc(s: seq<char>, c: char, v: int)
    requires AllDigits(s) && IsDigit(c)
    ensures ToIntFrom(s + [c], v) == ToIntFrom(s, v) * 10 + (c as int - '0' as int)
    decreases |s|
  {
    if s != [] {
      assert (s + [c])[1..] == s[1..] + [c];
      ToIntFromSnoc(s[1..], c, v * 10 + (s[0] as int - '0' as int));
    }
  }

  lemma {:induction false} ToIntDigits(s: seq<char>)
    requires AllDigits(s)
    ensures ToInt(s) == DecimalValue(s)
    decreases |s|
  {
    if s != [] {
      var init := s[..|s| - 1];
      assert s == init + [s[|s| - 1]];
      ToIntDigits(init);
      ToIntFromSnoc(init, s[|s| - 1], 0);
    }
  }

  /** toint() is the decimal value of an all-digit view and 0 for any view
      holding a non-digit; the empty view gives 0. */
  lemma ToIntMeaning(s: seq<char>)
    ensures AllDigits(s) ==> ToInt(s) == DecimalValue(s)
    ensures !AllDigits(s) ==> ToInt(s) == 0
  {
    if AllDigits(s) {
      ToIntDigits(s);
    } else {
      ToIntFromNonDigit(s, 0);
    }
  }

  lemma {:induction false} ToIntFromNonDigit(s: seq<char>, v: int)
    requires !AllDigits(s)
    ensures ToIntFrom(s, v) == 0
    decreases |s|
  {
    if IsDigit(s[0]) {
      assert !AllDigits(s[1..]) by {
        var i :| 0 <= i < |s| && !IsDigit(s[i]);
        assert s[1..][i - 1] == s[i];
      }
      ToIntFromNonDigit(s[1..], v * 10 + (s[0] as int - '0' as int));
    }
  }

  /** Decimal digits of n, most significant first (no leading zeros; 0 is "0"). */
  function Decimal(n: nat): (r: seq<char>)
    ensures AllDigits(r) && r != []
    decreases n
  {
    var d := (n % 10) as char + '0';
    if n < 10 then [d as char] else Decimal(n / 10) + [d as char]
  }

  /** Reading back the decimal digits of n gives n. */
  lemma {:induction false} ToIntOfDecimal(n: nat)
    ensures ToInt(Decimal(n)) == n
    decreases n
  {
    DecimalValueOfDecimal(n);
    ToIntMeaning(Decimal(n));
  }

  lemma {:induction false} DecimalValueOfDecimal(n: nat)
    ensures DecimalValue(Decimal(n)) == n
    decreases n
  {
    if n >= 10 {
      DecimalValueOfDecimal(n / 10);
      var s := Decimal(n);
      assert s[..|s| - 1] == Decimal(n / 10);
    }
  }

  /** The shared buffer behind a String: its reference counter is an
      `unsigned char` and wraps; `released` records that free() was
      called on it. */
  class SharedBuffer {
    var refCounter: nat
    var released: bool

    /** Alloc(): a new buffer owned once. */
    constructor ()
      ensures refCounter == 1 && !released
    {
      refCounter := 1;
      released := false;
    }
  }

  /** ++RefCounter on an unsigned char. */
  function Inc8(x: nat): (r: nat)
    requires x < 256
    ensures r < 256 && (x < 255 ==> r == x + 1) && (x == 255 ==> r == 0)
  {
    (x + 1) % 256
  }

  /** --RefCounter on an unsigned char. */
  function Dec8(x: nat): (r: nat)
    requires x < 256
    ensures r < 256 && (x > 0 ==> r == x - 1) && (x == 0 ==> r == 255)
  {
    (x + 255) % 256
  }

  /** String: the characters of its view and the buffer it shares (null for
      an empty string or one that views a literal). */
  class String {
    var content: seq<char>
    var buffer: SharedBuffer?

    ghost predicate Valid()
      reads this, buffer
    {
      buffer != null ==> buffer.refCounter < 256
    }

    /** String(): empty, without a buffer. */
    constructor ()
      ensures Valid() && content == [] && buffer == null
    {
      content := [];
      buffer := null;
    }

    /** String(const char (&)[N]): views the literal without owning it. */
    constructor Literal(s: seq<char>)
      ensures Valid() && content == s && buffer == null
    {
      content := s;
      buffer := null;
    }

    /** String(begin, length), String(StringBuf): assign() copies the
        characters into a buffer of its own; nothing is allocated for no
        characters. */
    constructor FromView(s: seq<char>)
      ensures Valid() && content == s
      ensures s == [] ==> buffer == null
      ensures s != [] ==> buffer != null && fresh(buffer) && buffer.refCounter == 1
    {
      content := s;
      if s == [] {
        buffer := null;
      } else {
        buffer := new SharedBuffer();
      }
    }

    /** String(const String&): shares the view and the buffer, counting one
        more owner. */
    constructor Copy(src: String)
      requires src.Valid()
      modifies src.buffer
      ensures Valid() && src.Valid()
      ensures content == src.content && buffer == src.buffer
      ensures buffer != null ==> buffer.refCounter == Inc8(old(src.buffer.refCounter))
    {
      content := src.content;
      buffer := src.buffer;
      new;
      if buffer != null {
        buffer.refCounter := Inc8(buffer.refCounter);
      }
    }

    /** String(String&&): takes the view and the buffer, leaving the source
        empty. */
    constructor Take(src: String)
      requires src.Valid()
      modifies src
      ensures Valid() && src.Valid()
      ensures content == old(src.content) && buffer == old(src.buffer)
      ensures src.content == [] && src.buffer == null
    {
      content := src.content;
      buffer := src.buffer;
      new;
      src.content := [];
      src.buffer := null;
    }

    /** String(const String&, pos, length), i.e. substr(pos, length): the
        length is clamped to what lies after pos (0 when pos is past the
        end); a non-empty result shares the buffer, an empty one holds none. */
    constructor Sub(src: String, pos: nat, length: nat)
      requires src.Valid()
      modifies src.buffer
      ensures Valid() && src.Valid()
      ensures content == src.content[Min(pos, |src.content|)..Min(pos, |src.content|) + ClampedLength(|src.content|, pos, length)]
      ensures content == [] ==> buffer == null
      ensures content != [] ==> buffer == src.buffer
      ensures src.buffer != null && content != [] ==> src.buffer.refCounter == Inc8(old(src.buffer.refCounter))
      ensures src.buffer != null && content == [] ==> src.buffer.refCounter == old(src.buffer.refCounter)
    {
      var size := |src.content|;
      var len := ClampedLength(size, pos, length);
      content := [];
      buffer := null;
      new;
      if len != 0 {
        buffer := src.buffer;
        if buffer != null {
          buffer.refCounter := Inc8(buffer.refCounter);
        }
        var start := Min(pos, size);
        content := src.content[start..start + len];
      }
    }

    function Size(): (r: nat)
      reads this
      ensures r == |content|
    {
      |content|
    }

    /** Free(): gives up this owner's share; the last owner releases the
        buffer and the view becomes empty. */
    method Free()
      requires Valid()
      modifies this, buffer
      ensures Valid()
      ensures old(buffer) == null ==> content == old(content) && buffer == null
      ensures old(buffer) != null ==> old(buffer).refCounter == Dec8(old(buffer.refCounter))
      ensures old(buffer) != null && old(buffer.refCounter) == 1 ==>
        buffer == null && content == [] && old(buffer).released
      ensures old(buffer) != null && old(buffer.refCounter) != 1 ==>
        buffer == old(buffer) && content == old(content) && buffer.released == old(buffer.released)
    {
      if buffer != null {
        buffer.refCounter := Dec8(buffer.refCounter);
        if buffer.refCounter == 0 {
          buffer.released := true;
          buffer := null;
          content := [];
        }
      }
    }

    /** operator=(const String&): Free(), then share the source. Assigning a
        string to itself as its last owner releases its buffer first. */
    method AssignCopy(src: String)
      requires Valid() && src.Valid()
      modifies this, buffer, src.buffer
      ensures Valid()
      ensures src != this ==> content == src.content && buffer == src.buffer
      ensures src != this && buffer != null && buffer != old(buffer) ==>
        buffer.refCounter == Inc8(old(src.buffer.refCounter))
      ensures src != this && old(buffer) != null && old(buffer) != old(src.buffer) ==>
        old(buffer).refCounter == Dec8(old(buffer.refCounter))
        && (old(buffer.refCounter) == 1 ==> old(buffer).released)
      ensures src != this && old(buffer) != null && old(buffer) == old(src.buffer) ==>
        buffer == old(buffer) && buffer.refCounter == Inc8(Dec8(old(buffer.refCounter)))
      ensures src == this && old(buffer) != null && old(buffer.refCounter) == 1 ==>
        content == [] && buffer == null
      ensures src == this && old(buffer) != null && old(buffer.refCounter) != 1 ==>
        content == old(content) && buffer == old(buffer)
        && buffer.refCounter == Inc8(Dec8(old(buffer.refCounter)))
      ensures src == this && old(buffer) == null ==> content == old(content) && buffer == null
    {
      Free();
      content := src.content;
      buffer := src.buffer;
      if buffer != null {
        buffer.refCounter := Inc8(buffer.refCounter);
      }
    }

    /** append(s, length): make the buffer this string's own (allocating one
        for a first character, copying a shared one), then add s. */
    method Append(s: seq<char>)
      requires Valid()
      modifies this, buffer
      ensures Valid() && content == old(content) + s
      ensures old(buffer) == null && content == [] ==> buffer == null
      ensures old(buffer) == null && content != [] ==> fresh(buffer) && buffer.refCounter == 1
      ensures old(buffer) != null && old(buffer.refCounter) == 1 ==>
        buffer == old(buffer) && buffer.refCounter == 1
      ensures old(buffer) != null && old(buffer.refCounter) != 1 ==>
        fresh(buffer) && buffer.refCounter == 1
        && old(buffer).refCounter == Dec8(old(buffer.refCounter))
    {
      EnsureOneOwner(|content| + |s|);
      content := content + s;
    }

    /** EnsureOneOwner(size): a shared buffer is replaced by a copy owned
        once; a missing one is allocated only when `size` is not 0. The
        characters are unchanged. */
    method EnsureOneOwner(size: nat)
      requires Valid()
      modifies this, buffer
      ensures Valid() && content == old(content)
      ensures old(buffer) == null && size == 0 ==> buffer == null
      ensures old(buffer) == null && size != 0 ==> fresh(buffer) && buffer.refCounter == 1
      ensures old(buffer) != null && old(buffer.refCounter) == 1 ==>
        buffer == old(buffer) && buffer.refCounter == 1
      ensures old(buffer) != null && old(buffer.refCounter) != 1 ==>
        fresh(buffer) && buffer.refCounter == 1
        && old(buffer).refCounter == Dec8(old(buffer.refCounter))
        && old(buffer).released == (old(buffer.released) || old(buffer.refCounter) == 1)
    {
      var original := content;
      if buffer != null {
        if buffer.refCounter != 1 {
          Free();
          buffer := new SharedBuffer();
          content := original;
        }
      } else if size != 0 {
        buffer := new SharedBuffer();
      }
    }

    /** erase(pos, length). Removing a prefix or a suffix only narrows the
        view. Otherwise a copy `original` takes one more share, the string
        gets a buffer of its own holding the characters around the erased
        range, and `original` gives its share back when it goes out of
        scope. */
    method Erase(pos: nat, length: nat)
      requires Valid() && pos + length <= |content|
      modifies this, buffer
      ensures Valid() && content == old(content)[..pos] + old(content)[pos + length..]
      ensures pos == 0 || pos + length == old(|content|) ==> buffer == old(buffer)
      ensures pos != 0 && pos + length != old(|content|) && old(buffer) == null ==>
        fresh(buffer) && buffer.refCounter == 1
      ensures pos != 0 && pos + length != old(|content|) && old(buffer) != null && old(buffer.refCounter) != 0 ==>
        fresh(buffer) && buffer.refCounter == 1
        && old(buffer).refCounter == Dec8(old(buffer.refCounter))
        && old(buffer).released == (old(buffer.released) || old(buffer.refCounter) == 1)
      ensures pos != 0 && pos + length != old(|content|) && old(buffer) != null && old(buffer.refCounter) == 0 ==>
        buffer == old(buffer) && buffer.refCounter == 0 && buffer.released
    {
      var size := |content|;
      if pos == 0 || pos + length == size {
        if pos == 0 {
          content := content[length..];
        } else {
          content := content[..pos];
        }
        assert content == old(content)[..pos] + old(content)[pos + length..];
        return;
      }
      var original := content;
      var holder := buffer;
      if holder != null {
        holder.refCounter := Inc8(holder.refCounter);
      }
      EnsureOneOwner(size - length);
      content := original[..pos] + original[pos + length..];
      if holder != null {
        holder.refCounter := Dec8(holder.refCounter);
        if holder.refCounter == 0 {
          holder.released := true;
        }
      }
    }

    /** ~String(). */
    method Destroy()
      requires Valid()
      modifies this, buffer
      ensures Valid()
      ensures old(buffer) != null ==> old(buffer).refCounter == Dec8(old(buffer.refCounter))
      ensures old(buffer) != null && old(buffer.refCounter) == 1 ==> old(buffer).released
    {
      Free();
    }
  }

  /** The length substr keeps: `length`, cut to what lies after pos. */
  function ClampedLength(size: nat, pos: nat, length: nat): (r: nat)
    ensures pos <= size ==> r == Min(length, size - pos)
    ensures pos > size ==> r == 0
  {
    if pos + length > size then (if pos > size then 0 else size - pos) else length
  }
}
