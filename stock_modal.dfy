/** The stock dialog (frontend/src/components/StockModal.tsx): the
    quantity and note typed for a stock-in or stock-out, the clamping
    minus / plus / input handlers, the confirm guard and the resets. */
module StockModal {
  import opened Base
  import Inventory

  /** The confirm button is enabled: at least one, and for a stock-out no
      more than the current stock. */
  predicate ConfirmEnabled(kind: Inventory.Direction, stock: int, quantity: int) {
    quantity >= 1 && !(kind == Inventory.Out && quantity > stock)
  }

  /** The request the dialog sends when confirmed. */
  function RequestOf(kind: Inventory.Direction, quantity: int, note: string, userId: nat, at: int): Inventory.StockRequest {
    Inventory.StockRequest(kind, quantity, userId, Some(note), None, at)
  }

  /** The confirm button is enabled exactly for the quantities the server's
      quantity rules accept: every quantity the dialog lets through passes
      `min:1` and `max:<stock>`, and every quantity it blocks fails one. */
  lemma ConfirmMatchesServerRules(kind: Inventory.Direction, stock: int, quantity: int, note: string, userId: nat, at: int)
    ensures var v := Inventory.ValidateStock(stock, RequestOf(kind, quantity, note, userId, at));
      ConfirmEnabled(kind, stock, quantity) <==>
        (v != Some(Inventory.InvalidQuantity) && v != Some(Inventory.InsufficientStock))
  {
  }

  /** `parseInt(text) || 1`: no number or zero reads as 1. */
  function ParsedOrOne(parsed: Option<int>): (n: int)
    ensures n != 0
    ensures parsed.Some? && parsed.value != 0 ==> n == parsed.value
  {
    if parsed.Some? && parsed.value != 0 then parsed.value else 1
  }

  class Dialog {
    const kind: Inventory.Direction
    /** The stock of the item the dialog is open for. */
    const stock: nat
    var quantity: int
    var note: string

    /** What the handlers keep: a stock-in quantity is at least 1; a
        stock-out quantity is within the stock, or the initial 1. */
    ghost predicate Valid()
      reads this
    {
      && quantity >= 0
      && (kind == Inventory.In ==> quantity >= 1)
      && (kind == Inventory.Out ==> quantity <= stock || quantity == 1)
    }

    /** The upper bound of the clamp: the stock for a stock-out, none for a
        stock-in. */
    function MaxOut(q: int): int
      reads this
    {
      if kind == Inventory.Out then Min(stock, q) else q
    }

    constructor (kind: Inventory.Direction, stock: nat)
      ensures Valid()
      ensures this.kind == kind && this.stock == stock && quantity == 1 && note == ""
    {
      this.kind := kind;
      this.stock := stock;
      quantity := 1;
      note := "";
    }

    /** The minus button: one less, never below 1. */
    method Minus()
      requires Valid()
      modifies this
      ensures Valid()
      ensures quantity == Max(1, old(quantity) - 1) && note == old(note)
      ensures quantity >= 1
    {
      quantity := Max(1, quantity - 1);
    }

    /** The plus button: one more, and for a stock-out never above the
        stock. */
    method Plus()
      requires Valid()
      modifies this
      ensures Valid()
      ensures quantity == MaxOut(old(quantity) + 1) && note == old(note)
      ensures kind == Inventory.Out ==> quantity <= stock
      ensures kind == Inventory.In ==> quantity == old(quantity) + 1
    {
      quantity := MaxOut(quantity + 1);
    }

    /** The number input: the parsed number, at least 1, and for a
        stock-out at most the stock, which makes it 0 on an item with no
        stock. */
    method Input(parsed: Option<int>)
      requires Valid()
      modifies this
      ensures Valid()
      ensures quantity == MaxOut(Max(1, ParsedOrOne(parsed))) && note == old(note)
      ensures kind == Inventory.Out ==> quantity <= stock
      ensures kind == Inventory.In || stock >= 1 ==> quantity >= 1
    {
      quantity := MaxOut(Max(1, ParsedOrOne(parsed)));
    }

    /** The note input. */
    method SetNote(text: string)
      requires Valid()
      modifies this
      ensures Valid()
      ensures quantity == old(quantity) && note == text
    {
      note := text;
    }

    /** `handleConfirm`: a positive quantity is handed on with the note and
        the dialog resets; otherwise nothing happens. */
    method Confirm() returns (sent: Option<(int, string)>)
      requires Valid()
      modifies this
      ensures Valid()
      ensures old(quantity) > 0 ==> sent == Some((old(quantity), old(note))) && quantity == 1 && note == ""
      ensures old(quantity) <= 0 ==> sent == None && quantity == old(quantity) && note == old(note)
    {
      if quantity > 0 {
        sent := Some((quantity, note));
        quantity := 1;
        note := "";
      } else {
        sent := None;
      }
    }

    /** `handleClose`: back to 1 and an empty note. */
    method Close()
      requires Valid()
      modifies this
      ensures Valid()
      ensures quantity == 1 && note == ""
    {
      quantity := 1;
      note := "";
    }
  }

  /** Whatever the handlers did, a stock-out quantity above the stock is
      only the initial 1 on an empty item, which the confirm button blocks;
      every other reachable quantity the button lets through is one the
      server accepts. */
  lemma ReachableQuantities(kind: Inventory.Direction, stock: nat, quantity: int)
    requires quantity >= 0
    requires kind == Inventory.In ==> quantity >= 1
    requires kind == Inventory.Out ==> quantity <= stock || quantity == 1
    ensures kind == Inventory.Out && quantity > stock ==> stock == 0 && quantity == 1
    ensures ConfirmEnabled(kind, stock, quantity) <==> quantity >= 1 && (kind == Inventory.Out ==> stock >= 1)
  {
  }
}
