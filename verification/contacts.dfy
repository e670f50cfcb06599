/** A contact record, the three form fields that edit it, and the emptiness
    test the add handler applies to it. */
module Contacts {

  /** One row of the contact list, and also the shape of the form draft. */
  datatype Contact = Contact(name: string, email: string, phone: string)

  /** The three form inputs; the `name` attribute of an input selects one of these. */
  datatype Field = Name | Email | Phone

  /** The cleared form: three empty strings. */
  const Blank: Contact := Contact("", "", "")

  /** JavaScript truthiness of a string: the empty string is the only falsy one. */
  predicate Truthy(s: string) {
    s != ""
  }

  /** The guard of the add handler: no field is falsy. Nothing else is checked. */
  predicate Filled(c: Contact) {
    Truthy(c.name) && Truthy(c.email) && Truthy(c.phone)
  }

  /** The value of one field. */
  function Get(c: Contact, f: Field): string {
    match f
    case Name => c.name
    case Email => c.email
    case Phone => c.phone
  }

  /** The object spread `{ ...c, [f]: v }`: field `f` becomes `v`, the others stay. */
  function Set(c: Contact, f: Field, v: string): (r: Contact)
    ensures Get(r, f) == v
    ensures forall g :: g != f ==> Get(r, g) == Get(c, g)
  {
    match f
    case Name => c.(name := v)
    case Email => c.(email := v)
    case Phone => c.(phone := v)
  }

  /** A contact is determined by its three field values. */
  lemma FieldsDetermineContact(a: Contact, b: Contact)
    requires forall f :: Get(a, f) == Get(b, f)
    ensures a == b
  {
    assert Get(a, Name) == Get(b, Name);
    assert Get(a, Email) == Get(b, Email);
    assert Get(a, Phone) == Get(b, Phone);
  }

  /** Writing a field back with its own value changes nothing. */
  lemma SetOwnValue(c: Contact, f: Field)
    ensures Set(c, f, Get(c, f)) == c
  {
  }

  /** Of two writes to the same field, the later one wins. */
  lemma SetTwice(c: Contact, f: Field, v: string, w: string)
    ensures Set(Set(c, f, v), f, w) == Set(c, f, w)
  {
  }

  /** The add guard holds exactly when no field is the empty string. */
  lemma FilledIffNoEmptyField(c: Contact)
    ensures Filled(c) <==> forall f :: Get(c, f) != ""
  {
    if !Filled(c) {
      if c.name == "" { assert Get(c, Name) == ""; }
      else if c.email == "" { assert Get(c, Email) == ""; }
      else { assert Get(c, Phone) == ""; }
    }
  }

  /** The cleared form never passes the add guard. */
  lemma BlankNotFilled()
    ensures !Filled(Blank)
  {
  }
}
