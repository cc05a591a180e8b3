/** The save-file variants the converter tells apart. */
module Enums {

  /**
   * Derived from the file's contents, never stored in it. Android and IOS are
   * recognised but cannot be converted.
   */
  datatype SaveType = Unknown | Retail | Steam | Android | IOS
}
