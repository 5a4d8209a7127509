/** The trade record every service exchanges (`Trade` in trade.py). */
module Trades {

  /** One executed trade; the source's `float` fields are exact reals here. */
  datatype Trade = Trade(productId: string, quantity: real, price: real, timestampMs: int)
}
