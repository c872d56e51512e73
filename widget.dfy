/**
 * The `App` component's selection state and its three handlers, `search`,
 * `addProduct` and `removeProduct`. Each handler replaces fields of the
 * component state (`setState`); `addProduct` and `removeProduct` also write
 * the product list to the host field (`sdk.field.setValue`), which the ghost
 * field `fieldValue` stands for.
 */
module Widget {
  import opened Wrappers
  import opened Selection

  /**
   * What `userInput` holds: the text typed into the search box or, after
   * `addProduct`, the product that was found or `undefined`.
   */
  datatype UserInput = Typed(text: string) | Chosen(product: Product) | Undefined

  class App {
    var productList: seq<Product>
    var productOptions: seq<Product>
    var activeOption: int
    var filteredOptions: seq<Product>
    var showOptions: bool
    var userInput: UserInput
    /** The value of the host entry field: read once at mount, written by `setValue`. */
    ghost var fieldValue: Option<seq<Product>>

    /**
     * The product list is what the host field holds (an empty list when the
     * field is unset); the offered options come from the last search result; and
     * while the options are shown, each matches the typed text and none has the
     * name of a selected product.
     */
    ghost predicate Valid()
      reads this
    {
      && productList == fieldValue.GetOr([])
      && IsSubsequence(filteredOptions, productOptions)
      && (showOptions ==>
            && userInput.Typed?
            && NoSharedName(filteredOptions, productList)
            && forall i :: 0 <= i < |filteredOptions| ==> Matches(userInput.text, filteredOptions[i]))
    }

    /** Mounting: `productList` is the field's value, or `[]` when the field is unset. */
    constructor (initialValue: Option<seq<Product>>)
      ensures Valid()
      ensures fieldValue == initialValue && productList == initialValue.GetOr([])
      ensures productOptions == [] && filteredOptions == []
      ensures activeOption == 0 && !showOptions && userInput == Typed("")
    {
      productList := initialValue.GetOr([]);
      productOptions := [];
      activeOption := 0;
      filteredOptions := [];
      showOptions := false;
      userInput := Typed("");
      fieldValue := initialValue;
    }

    /**
     * `search(userInput, productOptions)` with a fetched option list: the options
     * offered are those matching the input whose name is not selected yet; the
     * options are shown (even for an empty input) and the highlight is reset.
     */
    method Search(input: string, options: seq<Product>)
      requires Valid()
      modifies this
      ensures Valid()
      ensures filteredOptions == SearchFilter(input, options, productList)
      ensures NoSharedName(filteredOptions, productList)
      ensures productList == old(productList) && fieldValue == old(fieldValue)
      ensures productOptions == options && userInput == Typed(input)
      ensures activeOption == 0 && showOptions
    {
      var filtered := SearchFilter(input, options, productList);
      SearchFilterSpec(input, options, productList);
      SearchFilterExcludesSelected(input, options, productList);
      activeOption := 0;
      showOptions := true;
      userInput := Typed(input);
      productOptions := options;
      filteredOptions := filtered;
    }

    /**
     * `addProduct` for the option button labelled `productName`: the first option
     * with that name is pushed onto the product list (nothing is pushed when none
     * has it, and no duplicate check is made); the list is written to the field
     * either way and the options are hidden. `filteredOptions` keeps its old value.
     */
    method AddProduct(productName: string)
      requires Valid()
      modifies this
      ensures Valid()
      ensures productList == AddByName(old(productList), old(productOptions), productName)
      ensures old(productList) <= productList && |productList| <= |old(productList)| + 1
      ensures fieldValue == Some(productList)
      ensures userInput == match FindByName(old(productOptions), productName)
                           case Some(p) => Chosen(p)
                           case None => Undefined
      ensures activeOption == 0 && !showOptions
      ensures productOptions == old(productOptions) && filteredOptions == old(filteredOptions)
      ensures old(showOptions) && NoDuplicateNames(old(productList)) && HasName(old(filteredOptions), productName)
              ==> NoDuplicateNames(productList)
      // filteredOptions is not cleared, so an option with the chosen name stays in it while hidden
      ensures HasName(old(filteredOptions), productName) && HasName(old(productOptions), productName)
              ==> !NoSharedName(filteredOptions, productList)
    {
      ghost var list0, options0, filtered0, shown0 := productList, productOptions, filteredOptions, showOptions;
      var product := FindByName(productOptions, productName);
      if product.Some? {
        productList := productList + [product.value];
      }
      fieldValue := Some(productList);
      activeOption := 0;
      showOptions := false;
      userInput := if product.Some? then Chosen(product.value) else Undefined;
      assert shown0 && NoDuplicateNames(list0) && HasName(filtered0, productName) ==> NoDuplicateNames(productList) by {
        if shown0 && NoDuplicateNames(list0) && HasName(filtered0, productName) {
          AddKeepsNamesUnique(list0, options0, filtered0, productName);
        }
      }
      assert HasName(filtered0, productName) && HasName(options0, productName) ==> !NoSharedName(filteredOptions, productList) by {
        if HasName(filtered0, productName) && HasName(options0, productName) {
          AddLeavesChosenNameOffered(list0, options0, filtered0, productName);
        }
      }
    }

    /**
     * `removeProduct(productName)`: every entry with that name is dropped, the
     * others keep their order, and the new list is written to the field.
     */
    method RemoveProduct(productName: string)
      requires Valid()
      modifies this
      ensures Valid()
      ensures productList == RemoveByName(old(productList), productName)
      ensures !HasName(productList, productName)
      ensures fieldValue == Some(productList)
      ensures NoDuplicateNames(old(productList)) ==> NoDuplicateNames(productList)
      ensures productOptions == old(productOptions) && filteredOptions == old(filteredOptions)
      ensures activeOption == old(activeOption) && showOptions == old(showOptions) && userInput == old(userInput)
    {
      var updated := RemoveByName(productList, productName);
      RemoveByNameSpec(productList, productName);
      if NoDuplicateNames(productList) {
        RemoveKeepsNamesUnique(productList, productName);
      }
      if showOptions {
        RemoveKeepsNoSharedName(filteredOptions, productList, productName);
      }
      fieldValue := Some(updated);
      productList := updated;
    }
  }
}
