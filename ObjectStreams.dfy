/** The data an ObjectOutputStream carries between `serialize*` and
    `deserialize*`, seen as a sequence of typed tokens: one `writeInt` or
    `writeDouble` call writes one token, one `readInt` or `readDouble` call
    takes one, and a read past the end, or of a token of the other kind,
    throws. */
module ObjectStreams {
  import opened Wrappers

  datatype Token = IntToken(i: int) | DoubleToken(d: real)

  /** Tokens for the values `ds`, in order. */
  function DoubleTokens(ds: seq<real>): (t: seq<Token>)
    ensures |t| == |ds|
    ensures forall k :: 0 <= k < |ds| ==> t[k].DoubleToken? && t[k].d == ds[k]
  {
    seq(|ds|, k requires 0 <= k < |ds| => DoubleToken(ds[k]))
  }

  /** The doubles a reader can take one after the other from the front of
      `t`, up to the end or the first token that is not a double. */
  function LeadingDoubles(t: seq<Token>): (ds: seq<real>)
    ensures |ds| <= |t|
  {
    if t == [] || !t[0].DoubleToken? then [] else [t[0].d] + LeadingDoubles(t[1..])
  }

  /** Reading back what was written: the written doubles come first. */
  lemma {:induction false} LeadingDoublesOfWritten(ds: seq<real>, rest: seq<Token>)
    ensures LeadingDoubles(DoubleTokens(ds) + rest) == ds + LeadingDoubles(rest)
  {
    if ds != [] {
      var t := DoubleTokens(ds) + rest;
      assert t[1..] == DoubleTokens(ds[1..]) + rest;
      LeadingDoublesOfWritten(ds[1..], rest);
      assert ds == [ds[0]] + ds[1..];
    } else {
      assert DoubleTokens(ds) + rest == rest;
    }
  }

  /** The writing end: everything written so far. */
  class TokenWriter {
    var tokens: seq<Token>

    constructor ()
      ensures tokens == []
    {
      tokens := [];
    }

    /** `writeInt`. */
    method WriteInt(i: int)
      modifies this
      ensures tokens == old(tokens) + [IntToken(i)]
    {
      tokens := tokens + [IntToken(i)];
    }

    /** `writeDouble`. */
    method WriteDouble(d: real)
      modifies this
      ensures tokens == old(tokens) + [DoubleToken(d)]
    {
      tokens := tokens + [DoubleToken(d)];
    }
  }

  /** The reading end: the tokens not read yet. */
  class TokenReader {
    var unread: seq<Token>

    constructor (t: seq<Token>)
      ensures unread == t
    {
      unread := t;
    }

    function Rest(): seq<Token>
      reads this
    {
      unread
    }

    /** `readInt`. */
    method ReadInt() returns (r: Result<int>)
      modifies this
      ensures old(Rest()) != [] && old(Rest())[0].IntToken? ==>
                r == Success(old(Rest())[0].i) && Rest() == old(Rest())[1..]
      ensures !(old(Rest()) != [] && old(Rest())[0].IntToken?) ==>
                r == Failure(EndOfStream) && Rest() == old(Rest())
    {
      if unread != [] && unread[0].IntToken? {
        r := Success(unread[0].i);
        unread := unread[1..];
      } else {
        r := Failure(EndOfStream);
      }
    }

    /** `readDouble`. */
    method ReadDouble() returns (r: Result<real>)
      modifies this
      ensures old(Rest()) != [] && old(Rest())[0].DoubleToken? ==>
                r == Success(old(Rest())[0].d) && Rest() == old(Rest())[1..] &&
                LeadingDoubles(old(Rest())) == [r.value] + LeadingDoubles(Rest()) &&
                LeadingDoubles(old(Rest()))[0] == r.value &&
                LeadingDoubles(Rest()) == LeadingDoubles(old(Rest()))[1..]
      ensures !(old(Rest()) != [] && old(Rest())[0].DoubleToken?) ==>
                r == Failure(EndOfStream) && Rest() == old(Rest()) && LeadingDoubles(Rest()) == []
    {
      if unread != [] && unread[0].DoubleToken? {
        r := Success(unread[0].d);
        unread := unread[1..];
      } else {
        r := Failure(EndOfStream);
      }
    }
  }
}
