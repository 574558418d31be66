/** A message bundle: the translated strings of one language, from message
    key to message text. Nesting of keys plays no role in locale selection,
    so a bundle is flat here. */
module Bundles {

  type Bundle = map<string, string>

  /** A bundle with zero keys. */
  predicate IsEmpty(b: Bundle)
  {
    |b| == 0
  }
}
