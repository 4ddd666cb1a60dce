TestResult.DisplayName,TestResult.Outcome,TestResult.Duration,TestResult.ResourceCount,RandomSeed
LinAlg.SolveSystemQR (correctness),Failed,00:00:02.0927717,5071712,3
LinAlg.SolveSystemQR (well-formedness),Passed,00:00:00.1757364,91685,3
