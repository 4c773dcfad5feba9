/** Zero-terminated strings in memory. */
module Memory {
  const NUL: char := '\0'
}
