/** The toast notifications the page shows: only the text and the style variant
    a caller picks are modelled, not the element, its styling or its timers. */
module Toasts {

  /** The `type` argument of `showNotification`; the page uses these three. */
  datatype Kind = Success | Info | Error

  /** One call of `showNotification(message, type)`. */
  datatype Toast = Toast(message: string, kind: Kind)
}
