/**
 * The two pickers the loan form opens: `MemberLookupModal` lists the active
 * members and `BookLookupModal` the books with a copy on the shelf. Each
 * loads once when shown, filters its loaded list as the user types, and on
 * a choice calls `onSelect` and then `onCancel`.
 */
module LookupModals {
  import opened Wrappers
  import opened Text
  import opened ClientTypes
  import Lists

  /** The callbacks a choice fires, in order. */
  datatype Callback<T> = OnSelect(item: T) | OnCancel

  // ----- MemberLookupModal -----

  predicate IsActive(m: Member) { m.status == Active }

  /** The member search: name and e-mail ignoring case, member number and phone as typed. */
  predicate MemberMatches(value: string, m: Member)
  {
    || IncludesIgnoringCase(m.name, value)
    || Includes(m.memberNumber, value)
    || IncludesIgnoringCase(m.email, value)
    || Includes(m.phone, value)
  }

  function MemberMatchesValue(value: string): Member -> bool
  {
    m => MemberMatches(value, m)
  }

  /** The select button is disabled for a member who is not active. */
  predicate MemberSelectable(m: Member)
  {
    m.status == Active
  }

  class MemberLookup {
    var members: seq<Member>
    var filteredMembers: seq<Member>

    /** Everything loaded is active, and the rows shown are loaded members in loaded order. */
    ghost predicate Valid()
      reads this
    {
      && (forall i :: 0 <= i < |members| ==> IsActive(members[i]))
      && Lists.IsSubsequence(filteredMembers, members)
    }

    constructor ()
      ensures Valid() && members == [] && filteredMembers == []
    {
      members := [];
      filteredMembers := [];
    }

    /** `loadMembers` once the server answered with `response`: only the active members are kept. */
    method Load(response: seq<Member>)
      modifies this
      ensures Valid()
      ensures members == Lists.Filter(response, IsActive) && filteredMembers == members
    {
      members := Lists.Filter(response, IsActive);
      filteredMembers := members;
      Lists.SubsequenceOfItself(members);
    }

    /** `handleSearch(value)`: a blank box shows the whole loaded list, otherwise the matching members. */
    method Search(value: string)
      requires Valid()
      modifies this
      ensures Valid() && members == old(members)
      ensures IsJsBlank(value) ==> filteredMembers == members
      ensures !IsJsBlank(value) ==> filteredMembers == Lists.Filter(members, MemberMatchesValue(value))
    {
      if IsJsBlank(value) {
        filteredMembers := members;
        Lists.SubsequenceOfItself(members);
      } else {
        filteredMembers := Lists.Filter(members, MemberMatchesValue(value));
        Lists.FilterKeepsExactlyPassing(members, MemberMatchesValue(value));
      }
    }

    /** `handleSelect(member)`: the parent hears of the choice first, then the modal closes. */
    method Select(m: Member) returns (calls: seq<Callback<Member>>)
      ensures calls == [OnSelect(m), OnCancel]
    {
      calls := [OnSelect(m)];
      calls := calls + [OnCancel];
    }
  }

  /** Every row the member picker shows can be selected: its disabled button never appears. */
  lemma EveryShownMemberIsSelectable(members: seq<Member>, filteredMembers: seq<Member>)
    requires forall i :: 0 <= i < |members| ==> IsActive(members[i])
    requires Lists.IsSubsequence(filteredMembers, members)
    ensures forall i :: 0 <= i < |filteredMembers| ==> MemberSelectable(filteredMembers[i])
  {
    Lists.SubsequenceItems(filteredMembers, members);
    forall i | 0 <= i < |filteredMembers|
      ensures MemberSelectable(filteredMembers[i])
    {
      assert filteredMembers[i] in members;
    }
  }

  // ----- BookLookupModal -----

  predicate HasCopies(b: Book) { b.availableCopies > 0 }

  /** The book search: title, author and a non-empty category ignoring case, ISBN as typed. */
  predicate BookMatches(value: string, b: Book)
  {
    || IncludesIgnoringCase(b.title, value)
    || IncludesIgnoringCase(b.author, value)
    || Includes(b.isbn, value)
    || (b.category.Some? && b.category.value != "" && IncludesIgnoringCase(b.category.value, value))
  }

  function BookMatchesValue(value: string): Book -> bool
  {
    b => BookMatches(value, b)
  }

  /** The select button is disabled for a book with no copy on the shelf. */
  predicate BookSelectable(b: Book)
  {
    b.availableCopies > 0
  }

  class BookLookup {
    var books: seq<Book>
    var filteredBooks: seq<Book>

    /** Everything loaded has a copy on the shelf, and the rows shown are loaded books in loaded order. */
    ghost predicate Valid()
      reads this
    {
      && (forall i :: 0 <= i < |books| ==> HasCopies(books[i]))
      && Lists.IsSubsequence(filteredBooks, books)
    }

    constructor ()
      ensures Valid() && books == [] && filteredBooks == []
    {
      books := [];
      filteredBooks := [];
    }

    /** `loadBooks` once the server answered with `response`: only books with copies are kept. */
    method Load(response: seq<Book>)
      modifies this
      ensures Valid()
      ensures books == Lists.Filter(response, HasCopies) && filteredBooks == books
    {
      books := Lists.Filter(response, HasCopies);
      filteredBooks := books;
      Lists.SubsequenceOfItself(books);
    }

    /** `handleSearch(value)`. */
    method Search(value: string)
      requires Valid()
      modifies this
      ensures Valid() && books == old(books)
      ensures IsJsBlank(value) ==> filteredBooks == books
      ensures !IsJsBlank(value) ==> filteredBooks == Lists.Filter(books, BookMatchesValue(value))
    {
      if IsJsBlank(value) {
        filteredBooks := books;
        Lists.SubsequenceOfItself(books);
      } else {
        filteredBooks := Lists.Filter(books, BookMatchesValue(value));
        Lists.FilterKeepsExactlyPassing(books, BookMatchesValue(value));
      }
    }

    /** `handleSelect(book)`. */
    method Select(b: Book) returns (calls: seq<Callback<Book>>)
      ensures calls == [OnSelect(b), OnCancel]
    {
      calls := [OnSelect(b)];
      calls := calls + [OnCancel];
    }
  }

  /** Every row the book picker shows can be selected. */
  lemma EveryShownBookIsSelectable(books: seq<Book>, filteredBooks: seq<Book>)
    requires forall i :: 0 <= i < |books| ==> HasCopies(books[i])
    requires Lists.IsSubsequence(filteredBooks, books)
    ensures forall i :: 0 <= i < |filteredBooks| ==> BookSelectable(filteredBooks[i])
  {
    Lists.SubsequenceItems(filteredBooks, books);
    forall i | 0 <= i < |filteredBooks|
      ensures BookSelectable(filteredBooks[i])
    {
      assert filteredBooks[i] in books;
    }
  }
}
