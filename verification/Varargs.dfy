/** Variable arguments: a va_list is a cursor, and records what it has been asked for. */
module Varargs {
  import opened CTypes
  import opened Format

  /** Strings whose length is an int. */
  predicate StringsFit(args: seq<Arg>) {
    forall a :: a in args && a.StrArg? ==> |a.s| <= INT_MAX
  }

  class VaList {
    const args: seq<Arg>
    var next: nat
    ghost var asked: seq<ArgType>   // the types va_arg has been called with

    ghost predicate Valid()
      reads this
    {
      next == |asked| <= |args|
    }

    /** The arguments not taken yet. */
    ghost function Rest(): seq<Arg>
      requires Valid()
      reads this
    {
      args[next..]
    }

    /** The next argument has type t; va_arg is undefined otherwise. */
    ghost predicate Offers(t: ArgType)
      requires Valid()
      reads this
    {
      Rest() != [] && HasType(Rest()[0], t)
    }

    /** The first of the arguments that were left has been taken, as one of type t. */
    ghost predicate Took(rest: seq<Arg>, asked0: seq<ArgType>, t: ArgType)
      reads this
    {
      Valid() && rest != [] && Rest() == rest[1..] && asked == asked0 + [t]
    }

    /** va_start */
    constructor (args: seq<Arg>)
      ensures Valid() && Rest() == args && asked == []
    {
      this.args := args;
      next, asked := 0, [];
    }

    /** va_copy */
    constructor Copy(ap: VaList)
      requires ap.Valid()
      ensures Valid() && Rest() == ap.Rest() && asked == ap.asked
    {
      args, next, asked := ap.args, ap.next, ap.asked;
    }

    /** va_arg(ap, int) */
    method NextInt() returns (v: Int32)
      requires Valid() && Offers(TInt)
      modifies this
      ensures Took(old(Rest()), old(asked), TInt) && old(Rest())[0] == IntArg(v)
    {
      v := args[next].i;
      next, asked := next + 1, asked + [TInt];
    }

    /** va_arg(ap, long) */
    method NextLong() returns (v: Int64)
      requires Valid() && Offers(TLong)
      modifies this
      ensures Took(old(Rest()), old(asked), TLong) && old(Rest())[0] == LongArg(v)
    {
      v := args[next].l;
      next, asked := next + 1, asked + [TLong];
    }

    /** va_arg(ap, unsigned int) */
    method NextUInt() returns (v: UInt32)
      requires Valid() && Offers(TUInt)
      modifies this
      ensures Took(old(Rest()), old(asked), TUInt) && old(Rest())[0] == UIntArg(v)
    {
      v := args[next].u;
      next, asked := next + 1, asked + [TUInt];
    }

    /** va_arg(ap, unsigned long) */
    method NextULong() returns (v: UInt64)
      requires Valid() && Offers(TULong)
      modifies this
      ensures Took(old(Rest()), old(asked), TULong) && old(Rest())[0] == ULongArg(v)
    {
      v := args[next].ul;
      next, asked := next + 1, asked + [TULong];
    }

    /** va_arg(ap, void *) */
    method NextPtr() returns (v: UInt64)
      requires Valid() && Offers(TPtr)
      modifies this
      ensures Took(old(Rest()), old(asked), TPtr) && old(Rest())[0] == PtrArg(v)
    {
      v := args[next].p;
      next, asked := next + 1, asked + [TPtr];
    }

    /** va_arg(ap, const char *), which may be NULL. */
    method NextStr() returns (isNull: bool, s: CString)
      requires Valid() && Offers(TStr)
      modifies this
      ensures Took(old(Rest()), old(asked), TStr) && old(Rest())[0] == if isNull then NullStr else StrArg(s)
    {
      isNull := args[next].NullStr?;
      s := if isNull then "" else args[next].s;
      next, asked := next + 1, asked + [TStr];
    }

    /** A signed value, of the length the directive names. */
    method NextSigned(long: bool) returns (v: Int64)
      requires Valid() && Offers(if long then TLong else TInt)
      modifies this
      ensures Took(old(Rest()), old(asked), if long then TLong else TInt) && v == SignedValue(old(Rest())[0])
    {
      if long {
        v := NextLong();
      } else {
        v := NextInt();
      }
    }

    /** An unsigned value, of the length the directive names. */
    method NextUnsigned(long: bool) returns (v: UInt64)
      requires Valid() && Offers(if long then TULong else TUInt)
      modifies this
      ensures Took(old(Rest()), old(asked), if long then TULong else TUInt) && v == UnsignedValue(old(Rest())[0])
    {
      if long {
        v := NextULong();
      } else {
        v := NextUInt();
      }
    }
  }
}
