/** The editor's state: the hash of the URL being edited and the four parts
    shown in the form. */
module TextFragmentEditor {
  import opened Text
  import opened FragmentCodec
  import FragmentRoundTrip

  /** A partial record of parts: the fields given overwrite, the others stay. */
  datatype Update = Update(prefix: Option<seq<byte>>, textStart: Option<seq<byte>>, textEnd: Option<seq<byte>>, suffix: Option<seq<byte>>)

  /** `{ ...p, ...u }`: each field given in the update is taken from it,
      every other field is left as it was. */
  function Merge(p: Parts, u: Update): (r: Parts)
    ensures u.prefix.Some? ==> r.prefix == u.prefix.value
    ensures u.prefix.None? ==> r.prefix == p.prefix
    ensures u.textStart.Some? ==> r.textStart == u.textStart.value
    ensures u.textStart.None? ==> r.textStart == p.textStart
    ensures u.textEnd.Some? ==> r.textEnd == u.textEnd.value
    ensures u.textEnd.None? ==> r.textEnd == p.textEnd
    ensures u.suffix.Some? ==> r.suffix == u.suffix.value
    ensures u.suffix.None? ==> r.suffix == p.suffix
  {
    Parts(u.prefix.GetOr(p.prefix), u.textStart.GetOr(p.textStart), u.textEnd.GetOr(p.textEnd), u.suffix.GetOr(p.suffix))
  }

  /** Applying the same update twice is applying it once. */
  lemma MergeIdempotent(p: Parts, u: Update)
    ensures Merge(Merge(p, u), u) == Merge(p, u)
  {
  }

  /** The editor. Its `reading` is the pattern it decodes with: the
      program's own is `AsWritten`; `Corrected` is the repaired pattern. */
  class Editor {
    const reading: Reading
    /** The hash of the current URL (`url.hash`, empty when the URL is
        invalid). */
    var hash: string
    /** The parts shown in the form. */
    var parts: Parts

    constructor (reading: Reading)
      ensures this.reading == reading
      ensures hash == [] && parts == EmptyParts
    {
      this.reading := reading;
      hash := [];
      parts := EmptyParts;
    }

    /** The URL's hash changed: the parts are read from it again. */
    method Load(newHash: string)
      modifies this
      ensures hash == newHash
      ensures parts == Decode(newHash, reading)
    {
      hash := newHash;
      parts := Decode(newHash, reading);
    }

    /** One form field changed (`upsertParts`). */
    method Upsert(u: Update)
      modifies this`parts
      ensures parts == Merge(old(parts), u)
    {
      parts := Merge(parts, u);
    }

    /** "Remove text fragment": every part is emptied. */
    method RemoveTextFragment()
      modifies this`parts
      ensures parts == EmptyParts
    {
      parts := EmptyParts;
    }

    /** The hash of the URL the editor displays. Loading it gives no parts
        when `textStart` is empty, and the parts themselves when it is set,
        except that the pattern as written turns a suffix without a textEnd
        into a textEnd starting with `-`. */
    method Output() returns (h: string)
      ensures h == NewHash(parts, hash)
      ensures parts.textStart == [] ==> Decode(h, reading) == EmptyParts
      ensures parts.textStart != [] && (reading == Corrected || parts.textEnd != [] || parts.suffix == [])
        ==> Decode(h, reading) == parts
      ensures parts.textStart != [] && reading == AsWritten && parts.textEnd == [] && parts.suffix != []
        ==> Decode(h, reading) == Parts(parts.prefix, parts.textStart, ['-' as int as byte] + parts.suffix, [])
    {
      h := NewHash(parts, hash);
      FragmentRoundTrip.DecodeNewHash(parts, hash, reading);
    }
  }
}
